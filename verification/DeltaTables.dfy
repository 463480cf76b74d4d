/** The two tables of diff-delta.c, and that they are what the rolling hash needs. */
module DeltaTables {
  import opened DeltaFormat
  import opened DeltaHash

  // ---- The tables ---------------------------------------------------------------------------

  predicate Has(i: bv32, mask: bv32) {
    i & mask != 0
  }

  function Bit(i: bv32, mask: bv32, v: bv32): bv32 {
    if Has(i, mask) then v else 0
  }

  /** What the bits of a byte stand for, added up. */
  function Parts(i: bv32, v0: bv32, v1: bv32, v2: bv32, v3: bv32, v4: bv32, v5: bv32, v6: bv32, v7: bv32): bv32 {
    Sum(Sum(Sum(Bit(i, 0x01, v0), Bit(i, 0x02, v1)), Sum(Bit(i, 0x04, v2), Bit(i, 0x08, v3))),
      Sum(Sum(Bit(i, 0x10, v4), Bit(i, 0x20, v5)), Sum(Bit(i, 0x40, v6), Bit(i, 0x80, v7))))
  }

  function PartsT(i: bv32): bv32 {
    Parts(i, 0xab59b4d1, 0x56b369a2, 0x063f6795, 0x0c7ecf2a,
      0x18fd9e54, 0x31fb3ca8, 0x63f67950, 0x6cb54671)
  }

  function PartsU(i: bv32): bv32 {
    Parts(i, 0x7eb5200d, 0x5633f4cb, 0x073e5d47, 0x0e7cba8e,
      0x1cf9751c, 0x39f2ea38, 0x73e5d470, 0x4c921c31)
  }

  function T0(i: bv32): (v: bv32)
    ensures 0x00 <= i <= 0x0f ==> v == PartsT(i)
  {
    match i
    case 0x00 => 0x00000000 case 0x01 => 0xab59b4d1 case 0x02 => 0x56b369a2 case 0x03 => 0xfdeadd73
    case 0x04 => 0x063f6795 case 0x05 => 0xad66d344 case 0x06 => 0x508c0e37 case 0x07 => 0xfbd5bae6
    case 0x08 => 0x0c7ecf2a case 0x09 => 0xa7277bfb case 0x0a => 0x5acda688 case 0x0b => 0xf1941259
    case 0x0c => 0x0a41a8bf case 0x0d => 0xa1181c6e case 0x0e => 0x5cf2c11d case _ => 0xf7ab75cc
  }

  function T1(i: bv32): (v: bv32)
    ensures 0x10 <= i <= 0x1f ==> v == PartsT(i)
  {
    match i
    case 0x10 => 0x18fd9e54 case 0x11 => 0xb3a42a85 case 0x12 => 0x4e4ef7f6 case 0x13 => 0xe5174327
    case 0x14 => 0x1ec2f9c1 case 0x15 => 0xb59b4d10 case 0x16 => 0x48719063 case 0x17 => 0xe32824b2
    case 0x18 => 0x1483517e case 0x19 => 0xbfdae5af case 0x1a => 0x423038dc case 0x1b => 0xe9698c0d
    case 0x1c => 0x12bc36eb case 0x1d => 0xb9e5823a case 0x1e => 0x440f5f49 case _ => 0xef56eb98
  }

  function T2(i: bv32): (v: bv32)
    ensures 0x20 <= i <= 0x2f ==> v == PartsT(i)
  {
    match i
    case 0x20 => 0x31fb3ca8 case 0x21 => 0x9aa28879 case 0x22 => 0x6748550a case 0x23 => 0xcc11e1db
    case 0x24 => 0x37c45b3d case 0x25 => 0x9c9defec case 0x26 => 0x6177329f case 0x27 => 0xca2e864e
    case 0x28 => 0x3d85f382 case 0x29 => 0x96dc4753 case 0x2a => 0x6b369a20 case 0x2b => 0xc06f2ef1
    case 0x2c => 0x3bba9417 case 0x2d => 0x90e320c6 case 0x2e => 0x6d09fdb5 case _ => 0xc6504964
  }

  function T3(i: bv32): (v: bv32)
    ensures 0x30 <= i <= 0x3f ==> v == PartsT(i)
  {
    match i
    case 0x30 => 0x2906a2fc case 0x31 => 0x825f162d case 0x32 => 0x7fb5cb5e case 0x33 => 0xd4ec7f8f
    case 0x34 => 0x2f39c569 case 0x35 => 0x846071b8 case 0x36 => 0x798aaccb case 0x37 => 0xd2d3181a
    case 0x38 => 0x25786dd6 case 0x39 => 0x8e21d907 case 0x3a => 0x73cb0474 case 0x3b => 0xd892b0a5
    case 0x3c => 0x23470a43 case 0x3d => 0x881ebe92 case 0x3e => 0x75f463e1 case _ => 0xdeadd730
  }

  function T4(i: bv32): (v: bv32)
    ensures 0x40 <= i <= 0x4f ==> v == PartsT(i)
  {
    match i
    case 0x40 => 0x63f67950 case 0x41 => 0xc8afcd81 case 0x42 => 0x354510f2 case 0x43 => 0x9e1ca423
    case 0x44 => 0x65c91ec5 case 0x45 => 0xce90aa14 case 0x46 => 0x337a7767 case 0x47 => 0x9823c3b6
    case 0x48 => 0x6f88b67a case 0x49 => 0xc4d102ab case 0x4a => 0x393bdfd8 case 0x4b => 0x92626b09
    case 0x4c => 0x69b7d1ef case 0x4d => 0xc2ee653e case 0x4e => 0x3f04b84d case _ => 0x945d0c9c
  }

  function T5(i: bv32): (v: bv32)
    ensures 0x50 <= i <= 0x5f ==> v == PartsT(i)
  {
    match i
    case 0x50 => 0x7b0be704 case 0x51 => 0xd05253d5 case 0x52 => 0x2db88ea6 case 0x53 => 0x86e13a77
    case 0x54 => 0x7d348091 case 0x55 => 0xd66d3440 case 0x56 => 0x2b87e933 case 0x57 => 0x80de5de2
    case 0x58 => 0x7775282e case 0x59 => 0xdc2c9cff case 0x5a => 0x21c6418c case 0x5b => 0x8a9ff55d
    case 0x5c => 0x714a4fbb case 0x5d => 0xda13fb6a case 0x5e => 0x27f92619 case _ => 0x8ca092c8
  }

  function T6(i: bv32): (v: bv32)
    ensures 0x60 <= i <= 0x6f ==> v == PartsT(i)
  {
    match i
    case 0x60 => 0x520d45f8 case 0x61 => 0xf954f129 case 0x62 => 0x04be2c5a case 0x63 => 0xafe7988b
    case 0x64 => 0x5432226d case 0x65 => 0xff6b96bc case 0x66 => 0x02814bcf case 0x67 => 0xa9d8ff1e
    case 0x68 => 0x5e738ad2 case 0x69 => 0xf52a3e03 case 0x6a => 0x08c0e370 case 0x6b => 0xa39957a1
    case 0x6c => 0x584ced47 case 0x6d => 0xf3155996 case 0x6e => 0x0eff84e5 case _ => 0xa5a63034
  }

  function T7(i: bv32): (v: bv32)
    ensures 0x70 <= i <= 0x7f ==> v == PartsT(i)
  {
    match i
    case 0x70 => 0x4af0dbac case 0x71 => 0xe1a96f7d case 0x72 => 0x1c43b20e case 0x73 => 0xb71a06df
    case 0x74 => 0x4ccfbc39 case 0x75 => 0xe79608e8 case 0x76 => 0x1a7cd59b case 0x77 => 0xb125614a
    case 0x78 => 0x468e1486 case 0x79 => 0xedd7a057 case 0x7a => 0x103d7d24 case 0x7b => 0xbb64c9f5
    case 0x7c => 0x40b17313 case 0x7d => 0xebe8c7c2 case 0x7e => 0x16021ab1 case _ => 0xbd5bae60
  }

  function T8(i: bv32): (v: bv32)
    ensures 0x80 <= i <= 0x8f ==> v == PartsT(i)
  {
    match i
    case 0x80 => 0x6cb54671 case 0x81 => 0xc7ecf2a0 case 0x82 => 0x3a062fd3 case 0x83 => 0x915f9b02
    case 0x84 => 0x6a8a21e4 case 0x85 => 0xc1d39535 case 0x86 => 0x3c394846 case 0x87 => 0x9760fc97
    case 0x88 => 0x60cb895b case 0x89 => 0xcb923d8a case 0x8a => 0x3678e0f9 case 0x8b => 0x9d215428
    case 0x8c => 0x66f4eece case 0x8d => 0xcdad5a1f case 0x8e => 0x3047876c case _ => 0x9b1e33bd
  }

  function T9(i: bv32): (v: bv32)
    ensures 0x90 <= i <= 0x9f ==> v == PartsT(i)
  {
    match i
    case 0x90 => 0x7448d825 case 0x91 => 0xdf116cf4 case 0x92 => 0x22fbb187 case 0x93 => 0x89a20556
    case 0x94 => 0x7277bfb0 case 0x95 => 0xd92e0b61 case 0x96 => 0x24c4d612 case 0x97 => 0x8f9d62c3
    case 0x98 => 0x7836170f case 0x99 => 0xd36fa3de case 0x9a => 0x2e857ead case 0x9b => 0x85dcca7c
    case 0x9c => 0x7e09709a case 0x9d => 0xd550c44b case 0x9e => 0x28ba1938 case _ => 0x83e3ade9
  }

  function Ta(i: bv32): (v: bv32)
    ensures 0xa0 <= i <= 0xaf ==> v == PartsT(i)
  {
    match i
    case 0xa0 => 0x5d4e7ad9 case 0xa1 => 0xf617ce08 case 0xa2 => 0x0bfd137b case 0xa3 => 0xa0a4a7aa
    case 0xa4 => 0x5b711d4c case 0xa5 => 0xf028a99d case 0xa6 => 0x0dc274ee case 0xa7 => 0xa69bc03f
    case 0xa8 => 0x5130b5f3 case 0xa9 => 0xfa690122 case 0xaa => 0x0783dc51 case 0xab => 0xacda6880
    case 0xac => 0x570fd266 case 0xad => 0xfc5666b7 case 0xae => 0x01bcbbc4 case _ => 0xaae50f15
  }

  function Tb(i: bv32): (v: bv32)
    ensures 0xb0 <= i <= 0xbf ==> v == PartsT(i)
  {
    match i
    case 0xb0 => 0x45b3e48d case 0xb1 => 0xeeea505c case 0xb2 => 0x13008d2f case 0xb3 => 0xb85939fe
    case 0xb4 => 0x438c8318 case 0xb5 => 0xe8d537c9 case 0xb6 => 0x153feaba case 0xb7 => 0xbe665e6b
    case 0xb8 => 0x49cd2ba7 case 0xb9 => 0xe2949f76 case 0xba => 0x1f7e4205 case 0xbb => 0xb427f6d4
    case 0xbc => 0x4ff24c32 case 0xbd => 0xe4abf8e3 case 0xbe => 0x19412590 case _ => 0xb2189141
  }

  function Tc(i: bv32): (v: bv32)
    ensures 0xc0 <= i <= 0xcf ==> v == PartsT(i)
  {
    match i
    case 0xc0 => 0x0f433f21 case 0xc1 => 0xa41a8bf0 case 0xc2 => 0x59f05683 case 0xc3 => 0xf2a9e252
    case 0xc4 => 0x097c58b4 case 0xc5 => 0xa225ec65 case 0xc6 => 0x5fcf3116 case 0xc7 => 0xf49685c7
    case 0xc8 => 0x033df00b case 0xc9 => 0xa86444da case 0xca => 0x558e99a9 case 0xcb => 0xfed72d78
    case 0xcc => 0x0502979e case 0xcd => 0xae5b234f case 0xce => 0x53b1fe3c case _ => 0xf8e84aed
  }

  function Td(i: bv32): (v: bv32)
    ensures 0xd0 <= i <= 0xdf ==> v == PartsT(i)
  {
    match i
    case 0xd0 => 0x17bea175 case 0xd1 => 0xbce715a4 case 0xd2 => 0x410dc8d7 case 0xd3 => 0xea547c06
    case 0xd4 => 0x1181c6e0 case 0xd5 => 0xbad87231 case 0xd6 => 0x4732af42 case 0xd7 => 0xec6b1b93
    case 0xd8 => 0x1bc06e5f case 0xd9 => 0xb099da8e case 0xda => 0x4d7307fd case 0xdb => 0xe62ab32c
    case 0xdc => 0x1dff09ca case 0xdd => 0xb6a6bd1b case 0xde => 0x4b4c6068 case _ => 0xe015d4b9
  }

  function Te(i: bv32): (v: bv32)
    ensures 0xe0 <= i <= 0xef ==> v == PartsT(i)
  {
    match i
    case 0xe0 => 0x3eb80389 case 0xe1 => 0x95e1b758 case 0xe2 => 0x680b6a2b case 0xe3 => 0xc352defa
    case 0xe4 => 0x3887641c case 0xe5 => 0x93ded0cd case 0xe6 => 0x6e340dbe case 0xe7 => 0xc56db96f
    case 0xe8 => 0x32c6cca3 case 0xe9 => 0x999f7872 case 0xea => 0x6475a501 case 0xeb => 0xcf2c11d0
    case 0xec => 0x34f9ab36 case 0xed => 0x9fa01fe7 case 0xee => 0x624ac294 case _ => 0xc9137645
  }

  function Tf(i: bv32): (v: bv32)
    ensures 0xf0 <= i <= 0xff ==> v == PartsT(i)
  {
    match i
    case 0xf0 => 0x26459ddd case 0xf1 => 0x8d1c290c case 0xf2 => 0x70f6f47f case 0xf3 => 0xdbaf40ae
    case 0xf4 => 0x207afa48 case 0xf5 => 0x8b234e99 case 0xf6 => 0x76c993ea case 0xf7 => 0xdd90273b
    case 0xf8 => 0x2a3b52f7 case 0xf9 => 0x8162e626 case 0xfa => 0x7c883b55 case 0xfb => 0xd7d18f84
    case 0xfc => 0x2c043562 case 0xfd => 0x875d81b3 case 0xfe => 0x7ab75cc0 case _ => 0xd1eee811
  }

  /** The table `T`: each entry is the sum of what its bits stand for. */
  function TableT(i: bv32): (v: bv32)
    ensures i < 256 ==> v == PartsT(i)
  {
    if i < 0x10 then T0(i) else if i < 0x20 then T1(i) else if i < 0x30 then T2(i) else if i < 0x40 then T3(i) else
    if i < 0x50 then T4(i) else if i < 0x60 then T5(i) else if i < 0x70 then T6(i) else if i < 0x80 then T7(i) else
    if i < 0x90 then T8(i) else if i < 0xa0 then T9(i) else if i < 0xb0 then Ta(i) else if i < 0xc0 then Tb(i) else
    if i < 0xd0 then Tc(i) else if i < 0xe0 then Td(i) else if i < 0xf0 then Te(i) else Tf(i)
  }

  function U0(i: bv32): (v: bv32)
    ensures 0x00 <= i <= 0x0f ==> v == PartsU(i)
  {
    match i
    case 0x00 => 0x00000000 case 0x01 => 0x7eb5200d case 0x02 => 0x5633f4cb case 0x03 => 0x2886d4c6
    case 0x04 => 0x073e5d47 case 0x05 => 0x798b7d4a case 0x06 => 0x510da98c case 0x07 => 0x2fb88981
    case 0x08 => 0x0e7cba8e case 0x09 => 0x70c99a83 case 0x0a => 0x584f4e45 case 0x0b => 0x26fa6e48
    case 0x0c => 0x0942e7c9 case 0x0d => 0x77f7c7c4 case 0x0e => 0x5f711302 case _ => 0x21c4330f
  }

  function U1(i: bv32): (v: bv32)
    ensures 0x10 <= i <= 0x1f ==> v == PartsU(i)
  {
    match i
    case 0x10 => 0x1cf9751c case 0x11 => 0x624c5511 case 0x12 => 0x4aca81d7 case 0x13 => 0x347fa1da
    case 0x14 => 0x1bc7285b case 0x15 => 0x65720856 case 0x16 => 0x4df4dc90 case 0x17 => 0x3341fc9d
    case 0x18 => 0x1285cf92 case 0x19 => 0x6c30ef9f case 0x1a => 0x44b63b59 case 0x1b => 0x3a031b54
    case 0x1c => 0x15bb92d5 case 0x1d => 0x6b0eb2d8 case 0x1e => 0x4388661e case _ => 0x3d3d4613
  }

  function U2(i: bv32): (v: bv32)
    ensures 0x20 <= i <= 0x2f ==> v == PartsU(i)
  {
    match i
    case 0x20 => 0x39f2ea38 case 0x21 => 0x4747ca35 case 0x22 => 0x6fc11ef3 case 0x23 => 0x11743efe
    case 0x24 => 0x3eccb77f case 0x25 => 0x40799772 case 0x26 => 0x68ff43b4 case 0x27 => 0x164a63b9
    case 0x28 => 0x378e50b6 case 0x29 => 0x493b70bb case 0x2a => 0x61bda47d case 0x2b => 0x1f088470
    case 0x2c => 0x30b00df1 case 0x2d => 0x4e052dfc case 0x2e => 0x6683f93a case _ => 0x1836d937
  }

  function U3(i: bv32): (v: bv32)
    ensures 0x30 <= i <= 0x3f ==> v == PartsU(i)
  {
    match i
    case 0x30 => 0x250b9f24 case 0x31 => 0x5bbebf29 case 0x32 => 0x73386bef case 0x33 => 0x0d8d4be2
    case 0x34 => 0x2235c263 case 0x35 => 0x5c80e26e case 0x36 => 0x740636a8 case 0x37 => 0x0ab316a5
    case 0x38 => 0x2b7725aa case 0x39 => 0x55c205a7 case 0x3a => 0x7d44d161 case 0x3b => 0x03f1f16c
    case 0x3c => 0x2c4978ed case 0x3d => 0x52fc58e0 case 0x3e => 0x7a7a8c26 case _ => 0x04cfac2b
  }

  function U4(i: bv32): (v: bv32)
    ensures 0x40 <= i <= 0x4f ==> v == PartsU(i)
  {
    match i
    case 0x40 => 0x73e5d470 case 0x41 => 0x0d50f47d case 0x42 => 0x25d620bb case 0x43 => 0x5b6300b6
    case 0x44 => 0x74db8937 case 0x45 => 0x0a6ea93a case 0x46 => 0x22e87dfc case 0x47 => 0x5c5d5df1
    case 0x48 => 0x7d996efe case 0x49 => 0x032c4ef3 case 0x4a => 0x2baa9a35 case 0x4b => 0x551fba38
    case 0x4c => 0x7aa733b9 case 0x4d => 0x041213b4 case 0x4e => 0x2c94c772 case _ => 0x5221e77f
  }

  function U5(i: bv32): (v: bv32)
    ensures 0x50 <= i <= 0x5f ==> v == PartsU(i)
  {
    match i
    case 0x50 => 0x6f1ca16c case 0x51 => 0x11a98161 case 0x52 => 0x392f55a7 case 0x53 => 0x479a75aa
    case 0x54 => 0x6822fc2b case 0x55 => 0x1697dc26 case 0x56 => 0x3e1108e0 case 0x57 => 0x40a428ed
    case 0x58 => 0x61601be2 case 0x59 => 0x1fd53bef case 0x5a => 0x3753ef29 case 0x5b => 0x49e6cf24
    case 0x5c => 0x665e46a5 case 0x5d => 0x18eb66a8 case 0x5e => 0x306db26e case _ => 0x4ed89263
  }

  function U6(i: bv32): (v: bv32)
    ensures 0x60 <= i <= 0x6f ==> v == PartsU(i)
  {
    match i
    case 0x60 => 0x4a173e48 case 0x61 => 0x34a21e45 case 0x62 => 0x1c24ca83 case 0x63 => 0x6291ea8e
    case 0x64 => 0x4d29630f case 0x65 => 0x339c4302 case 0x66 => 0x1b1a97c4 case 0x67 => 0x65afb7c9
    case 0x68 => 0x446b84c6 case 0x69 => 0x3adea4cb case 0x6a => 0x1258700d case 0x6b => 0x6ced5000
    case 0x6c => 0x4355d981 case 0x6d => 0x3de0f98c case 0x6e => 0x15662d4a case _ => 0x6bd30d47
  }

  function U7(i: bv32): (v: bv32)
    ensures 0x70 <= i <= 0x7f ==> v == PartsU(i)
  {
    match i
    case 0x70 => 0x56ee4b54 case 0x71 => 0x285b6b59 case 0x72 => 0x00ddbf9f case 0x73 => 0x7e689f92
    case 0x74 => 0x51d01613 case 0x75 => 0x2f65361e case 0x76 => 0x07e3e2d8 case 0x77 => 0x7956c2d5
    case 0x78 => 0x5892f1da case 0x79 => 0x2627d1d7 case 0x7a => 0x0ea10511 case 0x7b => 0x7014251c
    case 0x7c => 0x5facac9d case 0x7d => 0x21198c90 case 0x7e => 0x099f5856 case _ => 0x772a785b
  }

  function U8(i: bv32): (v: bv32)
    ensures 0x80 <= i <= 0x8f ==> v == PartsU(i)
  {
    match i
    case 0x80 => 0x4c921c31 case 0x81 => 0x32273c3c case 0x82 => 0x1aa1e8fa case 0x83 => 0x6414c8f7
    case 0x84 => 0x4bac4176 case 0x85 => 0x3519617b case 0x86 => 0x1d9fb5bd case 0x87 => 0x632a95b0
    case 0x88 => 0x42eea6bf case 0x89 => 0x3c5b86b2 case 0x8a => 0x14dd5274 case 0x8b => 0x6a687279
    case 0x8c => 0x45d0fbf8 case 0x8d => 0x3b65dbf5 case 0x8e => 0x13e30f33 case _ => 0x6d562f3e
  }

  function U9(i: bv32): (v: bv32)
    ensures 0x90 <= i <= 0x9f ==> v == PartsU(i)
  {
    match i
    case 0x90 => 0x506b692d case 0x91 => 0x2ede4920 case 0x92 => 0x06589de6 case 0x93 => 0x78edbdeb
    case 0x94 => 0x5755346a case 0x95 => 0x29e01467 case 0x96 => 0x0166c0a1 case 0x97 => 0x7fd3e0ac
    case 0x98 => 0x5e17d3a3 case 0x99 => 0x20a2f3ae case 0x9a => 0x08242768 case 0x9b => 0x76910765
    case 0x9c => 0x59298ee4 case 0x9d => 0x279caee9 case 0x9e => 0x0f1a7a2f case _ => 0x71af5a22
  }

  function Ua(i: bv32): (v: bv32)
    ensures 0xa0 <= i <= 0xaf ==> v == PartsU(i)
  {
    match i
    case 0xa0 => 0x7560f609 case 0xa1 => 0x0bd5d604 case 0xa2 => 0x235302c2 case 0xa3 => 0x5de622cf
    case 0xa4 => 0x725eab4e case 0xa5 => 0x0ceb8b43 case 0xa6 => 0x246d5f85 case 0xa7 => 0x5ad87f88
    case 0xa8 => 0x7b1c4c87 case 0xa9 => 0x05a96c8a case 0xaa => 0x2d2fb84c case 0xab => 0x539a9841
    case 0xac => 0x7c2211c0 case 0xad => 0x029731cd case 0xae => 0x2a11e50b case _ => 0x54a4c506
  }

  function Ub(i: bv32): (v: bv32)
    ensures 0xb0 <= i <= 0xbf ==> v == PartsU(i)
  {
    match i
    case 0xb0 => 0x69998315 case 0xb1 => 0x172ca318 case 0xb2 => 0x3faa77de case 0xb3 => 0x411f57d3
    case 0xb4 => 0x6ea7de52 case 0xb5 => 0x1012fe5f case 0xb6 => 0x38942a99 case 0xb7 => 0x46210a94
    case 0xb8 => 0x67e5399b case 0xb9 => 0x19501996 case 0xba => 0x31d6cd50 case 0xbb => 0x4f63ed5d
    case 0xbc => 0x60db64dc case 0xbd => 0x1e6e44d1 case 0xbe => 0x36e89017 case _ => 0x485db01a
  }

  function Uc(i: bv32): (v: bv32)
    ensures 0xc0 <= i <= 0xcf ==> v == PartsU(i)
  {
    match i
    case 0xc0 => 0x3f77c841 case 0xc1 => 0x41c2e84c case 0xc2 => 0x69443c8a case 0xc3 => 0x17f11c87
    case 0xc4 => 0x38499506 case 0xc5 => 0x46fcb50b case 0xc6 => 0x6e7a61cd case 0xc7 => 0x10cf41c0
    case 0xc8 => 0x310b72cf case 0xc9 => 0x4fbe52c2 case 0xca => 0x67388604 case 0xcb => 0x198da609
    case 0xcc => 0x36352f88 case 0xcd => 0x48800f85 case 0xce => 0x6006db43 case _ => 0x1eb3fb4e
  }

  function Ud(i: bv32): (v: bv32)
    ensures 0xd0 <= i <= 0xdf ==> v == PartsU(i)
  {
    match i
    case 0xd0 => 0x238ebd5d case 0xd1 => 0x5d3b9d50 case 0xd2 => 0x75bd4996 case 0xd3 => 0x0b08699b
    case 0xd4 => 0x24b0e01a case 0xd5 => 0x5a05c017 case 0xd6 => 0x728314d1 case 0xd7 => 0x0c3634dc
    case 0xd8 => 0x2df207d3 case 0xd9 => 0x534727de case 0xda => 0x7bc1f318 case 0xdb => 0x0574d315
    case 0xdc => 0x2acc5a94 case 0xdd => 0x54797a99 case 0xde => 0x7cffae5f case _ => 0x024a8e52
  }

  function Ue(i: bv32): (v: bv32)
    ensures 0xe0 <= i <= 0xef ==> v == PartsU(i)
  {
    match i
    case 0xe0 => 0x06852279 case 0xe1 => 0x78300274 case 0xe2 => 0x50b6d6b2 case 0xe3 => 0x2e03f6bf
    case 0xe4 => 0x01bb7f3e case 0xe5 => 0x7f0e5f33 case 0xe6 => 0x57888bf5 case 0xe7 => 0x293dabf8
    case 0xe8 => 0x08f998f7 case 0xe9 => 0x764cb8fa case 0xea => 0x5eca6c3c case 0xeb => 0x207f4c31
    case 0xec => 0x0fc7c5b0 case 0xed => 0x7172e5bd case 0xee => 0x59f4317b case _ => 0x27411176
  }

  function Uf(i: bv32): (v: bv32)
    ensures 0xf0 <= i <= 0xff ==> v == PartsU(i)
  {
    match i
    case 0xf0 => 0x1a7c5765 case 0xf1 => 0x64c97768 case 0xf2 => 0x4c4fa3ae case 0xf3 => 0x32fa83a3
    case 0xf4 => 0x1d420a22 case 0xf5 => 0x63f72a2f case 0xf6 => 0x4b71fee9 case 0xf7 => 0x35c4dee4
    case 0xf8 => 0x1400edeb case 0xf9 => 0x6ab5cde6 case 0xfa => 0x42331920 case 0xfb => 0x3c86392d
    case 0xfc => 0x133eb0ac case 0xfd => 0x6d8b90a1 case 0xfe => 0x450d4467 case _ => 0x3bb8646a
  }

  /** The table `U`: each entry is the sum of what its bits stand for. */
  function TableU(i: bv32): (v: bv32)
    ensures i < 256 ==> v == PartsU(i)
  {
    if i < 0x10 then U0(i) else if i < 0x20 then U1(i) else if i < 0x30 then U2(i) else if i < 0x40 then U3(i) else
    if i < 0x50 then U4(i) else if i < 0x60 then U5(i) else if i < 0x70 then U6(i) else if i < 0x80 then U7(i) else
    if i < 0x90 then U8(i) else if i < 0xa0 then U9(i) else if i < 0xb0 then Ua(i) else if i < 0xc0 then Ub(i) else
    if i < 0xd0 then Uc(i) else if i < 0xe0 then Ud(i) else if i < 0xf0 then Ue(i) else Uf(i)
  }

  const GIT: Tables := Tables(TableT, TableU)

  lemma PartsFit(i: bv32)
    requires i < 256
    ensures PartsT(i) >> 31 == i & 1 && PartsU(i) < 0x8000_0000
  {}


  /** The tables keep hash values below 2^31. */
  lemma GitValid()
    ensures GIT.Valid()
  {
    forall i: bv32 | i < 256 ensures TableT(i) >> 31 == i & 1 && TableU(i) < 0x8000_0000 {
      PartsFit(i);
    }
  }


  lemma LowBits(a: bv32, b: bv32)
    ensures Has(Sum(a, b), 0x01) <==> Has(a, 0x01) != Has(b, 0x01)
    ensures Has(Sum(a, b), 0x02) <==> Has(a, 0x02) != Has(b, 0x02)
  {}

  lemma NextBits(a: bv32, b: bv32)
    ensures Has(Sum(a, b), 0x04) <==> Has(a, 0x04) != Has(b, 0x04)
    ensures Has(Sum(a, b), 0x08) <==> Has(a, 0x08) != Has(b, 0x08)
  {}

  lemma MiddleBits(a: bv32, b: bv32)
    ensures Has(Sum(a, b), 0x10) <==> Has(a, 0x10) != Has(b, 0x10)
    ensures Has(Sum(a, b), 0x20) <==> Has(a, 0x20) != Has(b, 0x20)
  {}

  lemma HighBits(a: bv32, b: bv32)
    ensures Has(Sum(a, b), 0x40) <==> Has(a, 0x40) != Has(b, 0x40)
    ensures Has(Sum(a, b), 0x80) <==> Has(a, 0x80) != Has(b, 0x80)
  {}

  lemma SumSelf(v: bv32)
    ensures Sum(v, v) == 0 && Sum(v, 0) == v == Sum(0, v)
  {}

  lemma BitAdds(a: bv32, b: bv32, mask: bv32, v: bv32)
    requires Has(Sum(a, b), mask) <==> Has(a, mask) != Has(b, mask)
    ensures Bit(Sum(a, b), mask, v) == Sum(Bit(a, mask, v), Bit(b, mask, v))
  {
    hide Sum, Has;
    SumSelf(v);
    SumSelf(0);
  }

  lemma FourAdd(a0: bv32, b0: bv32, a1: bv32, b1: bv32, a2: bv32, b2: bv32, a3: bv32, b3: bv32)
    ensures Sum(Sum(Sum(a0, b0), Sum(a1, b1)), Sum(Sum(a2, b2), Sum(a3, b3))) ==
      Sum(Sum(Sum(a0, a1), Sum(a2, a3)), Sum(Sum(b0, b1), Sum(b2, b3)))
  {
    hide *;
    SumSwaps(a0, b0, a1, b1);
    SumSwaps(a2, b2, a3, b3);
    SumSwaps(Sum(a0, a1), Sum(b0, b1), Sum(a2, a3), Sum(b2, b3));
  }

  lemma EachBitAdds(a: bv32, b: bv32, v0: bv32, v1: bv32, v2: bv32, v3: bv32, v4: bv32, v5: bv32, v6: bv32, v7: bv32)
    ensures Bit(Sum(a, b), 0x01, v0) == Sum(Bit(a, 0x01, v0), Bit(b, 0x01, v0))
    ensures Bit(Sum(a, b), 0x02, v1) == Sum(Bit(a, 0x02, v1), Bit(b, 0x02, v1))
    ensures Bit(Sum(a, b), 0x04, v2) == Sum(Bit(a, 0x04, v2), Bit(b, 0x04, v2))
    ensures Bit(Sum(a, b), 0x08, v3) == Sum(Bit(a, 0x08, v3), Bit(b, 0x08, v3))
    ensures Bit(Sum(a, b), 0x10, v4) == Sum(Bit(a, 0x10, v4), Bit(b, 0x10, v4))
    ensures Bit(Sum(a, b), 0x20, v5) == Sum(Bit(a, 0x20, v5), Bit(b, 0x20, v5))
    ensures Bit(Sum(a, b), 0x40, v6) == Sum(Bit(a, 0x40, v6), Bit(b, 0x40, v6))
    ensures Bit(Sum(a, b), 0x80, v7) == Sum(Bit(a, 0x80, v7), Bit(b, 0x80, v7))
  {
    hide Sum, Bit, Has;
    LowBits(a, b);
    NextBits(a, b);
    MiddleBits(a, b);
    HighBits(a, b);
    BitAdds(a, b, 0x01, v0);
    BitAdds(a, b, 0x02, v1);
    BitAdds(a, b, 0x04, v2);
    BitAdds(a, b, 0x08, v3);
    BitAdds(a, b, 0x10, v4);
    BitAdds(a, b, 0x20, v5);
    BitAdds(a, b, 0x40, v6);
    BitAdds(a, b, 0x80, v7);
  }

  lemma PartsAdd(a: bv32, b: bv32, v0: bv32, v1: bv32, v2: bv32, v3: bv32, v4: bv32, v5: bv32, v6: bv32, v7: bv32)
    ensures Parts(Sum(a, b), v0, v1, v2, v3, v4, v5, v6, v7) ==
      Sum(Parts(a, v0, v1, v2, v3, v4, v5, v6, v7), Parts(b, v0, v1, v2, v3, v4, v5, v6, v7))
  {
    hide Sum, Bit, Has;
    EachBitAdds(a, b, v0, v1, v2, v3, v4, v5, v6, v7);
    FourAdd(Bit(a, 0x01, v0), Bit(b, 0x01, v0), Bit(a, 0x02, v1), Bit(b, 0x02, v1),
      Bit(a, 0x04, v2), Bit(b, 0x04, v2), Bit(a, 0x08, v3), Bit(b, 0x08, v3));
    FourAdd(Bit(a, 0x10, v4), Bit(b, 0x10, v4), Bit(a, 0x20, v5), Bit(b, 0x20, v5),
      Bit(a, 0x40, v6), Bit(b, 0x40, v6), Bit(a, 0x80, v7), Bit(b, 0x80, v7));
    SumSwaps(
      Sum(Sum(Bit(a, 0x01, v0), Bit(a, 0x02, v1)), Sum(Bit(a, 0x04, v2), Bit(a, 0x08, v3))),
      Sum(Sum(Bit(b, 0x01, v0), Bit(b, 0x02, v1)), Sum(Bit(b, 0x04, v2), Bit(b, 0x08, v3))),
      Sum(Sum(Bit(a, 0x10, v4), Bit(a, 0x20, v5)), Sum(Bit(a, 0x40, v6), Bit(a, 0x80, v7))),
      Sum(Sum(Bit(b, 0x10, v4), Bit(b, 0x20, v5)), Sum(Bit(b, 0x40, v6), Bit(b, 0x80, v7))));
  }

  lemma PartsTAdd(a: bv32, b: bv32)
    ensures PartsT(Sum(a, b)) == Sum(PartsT(a), PartsT(b))
  {
    hide Sum, Parts;
    PartsAdd(a, b, 0xab59b4d1, 0x56b369a2, 0x063f6795, 0x0c7ecf2a, 0x18fd9e54, 0x31fb3ca8, 0x63f67950, 0x6cb54671);
  }

  lemma SumFits(a: bv32, b: bv32)
    requires a < 256 && b < 256
    ensures Sum(a, b) < 256
  {}


  lemma TableTAdds(a: bv32, b: bv32)
    requires a < 256 && b < 256
    ensures TableT(Sum(a, b)) == Sum(TableT(a), TableT(b))
  {
    hide *;
    SumFits(a, b);
    PartsTAdd(a, b);
  }

  lemma GitLinear()
    ensures Linear(GIT)
  {
    forall a: bv32, b: bv32 {:trigger Sum(a, b)} | a < 256 && b < 256
      ensures TableT(Sum(a, b)) == Sum(TableT(a), TableT(b))
    {
      TableTAdds(a, b);
    }
  }

  // ---- What a byte has become ---------------------------------------------------------------

  /** A hash with `n` zero bytes shifted in. */
  ghost function Pushed(v: bv32, n: nat): (r: bv32)
    requires GIT.Valid() && v < 0x8000_0000
    ensures r < 0x8000_0000
  {
    if n == 0 then v else Roll(GIT, Pushed(v, n - 1), 0)
  }

  lemma PushedNext(v: bv32, n: nat)
    requires GIT.Valid() && v < 0x8000_0000
    ensures Pushed(v, 0) == v && Pushed(v, n + 1) == Roll(GIT, Pushed(v, n), 0)
  {}

  lemma {:induction false} PushedAdds(v: bv32, u: bv32, n: nat)
    requires GIT.Valid() && v < 0x8000_0000 && u < 0x8000_0000
    ensures Sum(v, u) < 0x8000_0000 && Pushed(Sum(v, u), n) == Sum(Pushed(v, n), Pushed(u, n))
  {
    hide *;
    IndexAdds(v, u);
    PushedNext(v, if n == 0 then 0 else n - 1);
    PushedNext(u, if n == 0 then 0 else n - 1);
    PushedNext(Sum(v, u), if n == 0 then 0 else n - 1);
    if n > 0 {
      PushedAdds(v, u, n - 1);
      GitLinear();
      RollAdds(GIT, Pushed(v, n - 1), Pushed(u, n - 1), 0);
    }
  }

  /** `y` is what becomes of the hash `x` when a zero byte is shifted in. */
  predicate Follows(x: bv32, y: bv32) {
    x < 0x8000_0000 && y == Sum(WithByte(x, 0), PartsT(Top(x)))
  }

  lemma FollowsRolls(x: bv32, y: bv32)
    requires GIT.Valid() && Follows(x, y)
    ensures x < 0x8000_0000 && Roll(GIT, x, 0) == y
  {
    RollIs(GIT, x, 0);
    WideZero();
    IndexAdds(x, 0);
    hide PartsT, Sum, WithByte, Roll, Wide;
  }

  lemma PushedOnce(v: bv32, n: nat, x: bv32, y: bv32)
    requires GIT.Valid() && v < 0x8000_0000 && Pushed(v, n) == x && Follows(x, y)
    ensures Pushed(v, n + 1) == y
  {
    hide *;
    PushedNext(v, n);
    FollowsRolls(x, y);
  }

  lemma PushedThrice(v: bv32, n: nat, x0: bv32, x1: bv32, x2: bv32, x3: bv32)
    requires GIT.Valid() && v < 0x8000_0000 && Pushed(v, n) == x0
    requires Follows(x0, x1) && Follows(x1, x2) && Follows(x2, x3)
    ensures Pushed(v, n + 3) == x3
  {
    hide *;
    PushedOnce(v, n, x0, x1);
    PushedOnce(v, n + 1, x1, x2);
    PushedOnce(v, n + 2, x2, x3);
  }

  lemma NotPushed(v: bv32)
    requires GIT.Valid() && v < 0x8000_0000
    ensures Pushed(v, 0) == v
  {}

  lemma Bit0Pushed()
    requires GIT.Valid()
    ensures Pushed(0x00000001, 15) == 0x7eb5200d
  {
    hide GIT, Pushed;
    NotPushed(0x00000001);
    PushedThrice(0x00000001, 0, 0x00000001, 0x00000100, 0x00010000, 0x01000000);
    PushedThrice(0x00000001, 3, 0x01000000, 0x56b369a2, 0x4f3fc4b7, 0x177eae38);
    PushedThrice(0x00000001, 6, 0x177eae38, 0x13a7c5b5, 0x6deb334e, 0x0d19fd2c);
    PushedThrice(0x00000001, 9, 0x0d19fd2c, 0x5bcd14dc, 0x7372826b, 0x1cb666be);
    PushedThrice(0x00000001, 12, 0x1cb666be, 0x38476707, 0x0d97dcac, 0x7eb5200d);
  }

  lemma Bit1Pushed()
    requires GIT.Valid()
    ensures Pushed(0x00000002, 15) == 0x5633f4cb
  {
    hide GIT, Pushed;
    NotPushed(0x00000002);
    PushedThrice(0x00000002, 0, 0x00000002, 0x00000200, 0x00020000, 0x02000000);
    PushedThrice(0x00000002, 3, 0x02000000, 0x063f6795, 0x35263dbf, 0x2efd5c70);
    PushedThrice(0x00000002, 6, 0x2efd5c70, 0x274f8b6a, 0x708fd24d, 0x1a33fa58);
    PushedThrice(0x00000002, 9, 0x1a33fa58, 0x1cc39d69, 0x4dbcb007, 0x396ccd7c);
    PushedThrice(0x00000002, 12, 0x396ccd7c, 0x708ece0e, 0x1b2fb958, 0x5633f4cb);
  }

  lemma Bit2Pushed()
    requires GIT.Valid()
    ensures Pushed(0x00000004, 15) == 0x073e5d47
  {
    hide GIT, Pushed;
    NotPushed(0x00000004);
    PushedThrice(0x00000004, 0, 0x00000004, 0x00000400, 0x00040000, 0x04000000);
    PushedThrice(0x00000004, 3, 0x04000000, 0x0c7ecf2a, 0x6a4c7b7e, 0x5dfab8e0);
    PushedThrice(0x00000004, 6, 0x5dfab8e0, 0x4e9f16d4, 0x4a46104b, 0x3467f4b0);
    PushedThrice(0x00000004, 9, 0x3467f4b0, 0x39873ad2, 0x3020d4df, 0x72d99af8);
    PushedThrice(0x00000004, 12, 0x72d99af8, 0x4a4428cd, 0x365f72b0, 0x073e5d47);
  }

  lemma Bit3Pushed()
    requires GIT.Valid()
    ensures Pushed(0x00000008, 15) == 0x0e7cba8e
  {
    hide GIT, Pushed;
    NotPushed(0x00000008);
    PushedThrice(0x00000008, 0, 0x00000008, 0x00000800, 0x00080000, 0x08000000);
    PushedThrice(0x00000008, 3, 0x08000000, 0x18fd9e54, 0x7fc1422d, 0x10acc511);
    PushedThrice(0x00000008, 6, 0x10acc511, 0x36679979, 0x3fd59447, 0x68cfe960);
    PushedThrice(0x00000008, 9, 0x68cfe960, 0x730e75a4, 0x6041a9be, 0x4eea8121);
    PushedThrice(0x00000008, 12, 0x4eea8121, 0x3fd1e54b, 0x6cbee560, 0x0e7cba8e);
  }

  lemma Bit4Pushed()
    requires GIT.Valid()
    ensures Pushed(0x00000010, 15) == 0x1cf9751c
  {
    hide GIT, Pushed;
    NotPushed(0x00000010);
    PushedThrice(0x00000010, 0, 0x00000010, 0x00001000, 0x00100000, 0x10000000);
    PushedThrice(0x00000010, 3, 0x10000000, 0x31fb3ca8, 0x54db308b, 0x21598a22);
    PushedThrice(0x00000010, 6, 0x21598a22, 0x6ccf32f2, 0x7fab288e, 0x7ac66611);
    PushedThrice(0x00000010, 9, 0x7ac66611, 0x4d455f99, 0x6bdae7ad, 0x368cb693);
    PushedThrice(0x00000010, 12, 0x368cb693, 0x7fa3ca96, 0x72247e11, 0x1cf9751c);
  }

  lemma Bit5Pushed()
    requires GIT.Valid()
    ensures Pushed(0x00000020, 15) == 0x39f2ea38
  {
    hide GIT, Pushed;
    NotPushed(0x00000020);
    PushedThrice(0x00000020, 0, 0x00000020, 0x00002000, 0x00200000, 0x20000000);
    PushedThrice(0x00000020, 3, 0x20000000, 0x63f67950, 0x02efd5c7, 0x42b31444);
    PushedThrice(0x00000020, 6, 0x42b31444, 0x72c7d135, 0x540fe5cd, 0x5ed578f3);
    PushedThrice(0x00000020, 9, 0x5ed578f3, 0x31d30be3, 0x7cec7b8b, 0x6d196d26);
    PushedThrice(0x00000020, 12, 0x6d196d26, 0x541e21fd, 0x4f1148f3, 0x39f2ea38);
  }

  lemma Bit6Pushed()
    requires GIT.Valid()
    ensures Pushed(0x00000040, 15) == 0x73e5d470
  {
    hide GIT, Pushed;
    NotPushed(0x00000040);
    PushedThrice(0x00000040, 0, 0x00000040, 0x00004000, 0x00400000, 0x40000000);
    PushedThrice(0x00000040, 3, 0x40000000, 0x6cb54671, 0x05dfab8e, 0x2e3f9c59);
    PushedThrice(0x00000040, 6, 0x2e3f9c59, 0x4ed616bb, 0x03467f4b, 0x16f34537);
    PushedThrice(0x00000040, 9, 0x16f34537, 0x63a617c6, 0x528143c7, 0x716b6e9d);
    PushedThrice(0x00000040, 12, 0x716b6e9d, 0x0365f72b, 0x357b2537, 0x73e5d470);
  }

  lemma Bit7Pushed()
    requires GIT.Valid()
    ensures Pushed(0x00000080, 15) == 0x4c921c31
  {
    hide GIT, Pushed;
    NotPushed(0x00000080);
    PushedThrice(0x00000080, 0, 0x00000080, 0x00008000, 0x00800000, 0x2b59b4d1);
    PushedThrice(0x00000080, 3, 0x2b59b4d1, 0x72333833, 0x0bbf571c, 0x5c7f38b2);
    PushedThrice(0x00000080, 6, 0x5c7f38b2, 0x36f599a7, 0x068cfe96, 0x2de68a6e);
    PushedThrice(0x00000080, 9, 0x2de68a6e, 0x6c159b5d, 0x0e5b335f, 0x498f69eb);
    PushedThrice(0x00000080, 12, 0x498f69eb, 0x06cbee56, 0x6af64a6e, 0x4c921c31);
  }

  lemma PushedZero()
    requires GIT.Valid()
    ensures Pushed(0, 15) == 0
  {
    SumSelf(0);
    SumSelf(Pushed(0, 15));
    hide *;
    PushedAdds(0, 0, 15);
  }

  lemma PushedBit(i: bv32, mask: bv32, u: bv32)
    requires GIT.Valid() && mask < 0x8000_0000 && Pushed(mask, 15) == u
    ensures Bit(i, mask, mask) < 0x8000_0000 && Pushed(Bit(i, mask, mask), 15) == Bit(i, mask, u)
  {
    hide Has, Pushed, GIT;
    PushedZero();
  }

  lemma LowParts(i: bv32)
    ensures i & 0x0f == Sum(Sum(Bit(i, 0x01, 0x01), Bit(i, 0x02, 0x02)), Sum(Bit(i, 0x04, 0x04), Bit(i, 0x08, 0x08)))
  {
    assert Bit(i, 0x01, 0x01) == i & 0x01;
    assert Bit(i, 0x02, 0x02) == i & 0x02;
    assert Bit(i, 0x04, 0x04) == i & 0x04;
    assert Bit(i, 0x08, 0x08) == i & 0x08;
    hide Bit;
    assert i & 0x0f == Sum(Sum(i & 0x01, i & 0x02), Sum(i & 0x04, i & 0x08));
  }

  lemma HighParts(i: bv32)
    ensures i & 0xf0 == Sum(Sum(Bit(i, 0x10, 0x10), Bit(i, 0x20, 0x20)), Sum(Bit(i, 0x40, 0x40), Bit(i, 0x80, 0x80)))
  {
    assert Bit(i, 0x10, 0x10) == i & 0x10;
    assert Bit(i, 0x20, 0x20) == i & 0x20;
    assert Bit(i, 0x40, 0x40) == i & 0x40;
    assert Bit(i, 0x80, 0x80) == i & 0x80;
    hide Bit;
    assert i & 0xf0 == Sum(Sum(i & 0x10, i & 0x20), Sum(i & 0x40, i & 0x80));
  }

  lemma Halves(i: bv32)
    requires i < 256
    ensures i == Sum(i & 0x0f, i & 0xf0)
  {}

  lemma IsItsParts(i: bv32)
    requires i < 256
    ensures i == Parts(i, 0x01, 0x02, 0x04, 0x08, 0x10, 0x20, 0x40, 0x80)
  {
    hide Sum, Bit;
    LowParts(i);
    HighParts(i);
    Halves(i);
  }

  lemma PushedFour(a: bv32, b: bv32, c: bv32, d: bv32)
    requires GIT.Valid() && a < 0x8000_0000 && b < 0x8000_0000 && c < 0x8000_0000 && d < 0x8000_0000
    ensures Sum(Sum(a, b), Sum(c, d)) < 0x8000_0000
    ensures Pushed(Sum(Sum(a, b), Sum(c, d)), 15) ==
      Sum(Sum(Pushed(a, 15), Pushed(b, 15)), Sum(Pushed(c, 15), Pushed(d, 15)))
  {
    hide *;
    PushedAdds(a, b, 15);
    PushedAdds(c, d, 15);
    PushedAdds(Sum(a, b), Sum(c, d), 15);
  }

  /** What a byte has become when fifteen zero bytes have been shifted in behind it. */
  lemma BytePushed(i: bv32)
    requires GIT.Valid() && i < 256
    ensures Pushed(i, 15) == PartsU(i)
  {
    hide Sum, Bit, GIT, Pushed;
    IsItsParts(i);
    Bit0Pushed();
    PushedBit(i, 0x01, 0x7eb5200d);
    Bit1Pushed();
    PushedBit(i, 0x02, 0x5633f4cb);
    Bit2Pushed();
    PushedBit(i, 0x04, 0x073e5d47);
    Bit3Pushed();
    PushedBit(i, 0x08, 0x0e7cba8e);
    Bit4Pushed();
    PushedBit(i, 0x10, 0x1cf9751c);
    Bit5Pushed();
    PushedBit(i, 0x20, 0x39f2ea38);
    Bit6Pushed();
    PushedBit(i, 0x40, 0x73e5d470);
    Bit7Pushed();
    PushedBit(i, 0x80, 0x4c921c31);
    PushedFour(Bit(i, 0x01, 0x01), Bit(i, 0x02, 0x02), Bit(i, 0x04, 0x04), Bit(i, 0x08, 0x08));
    PushedFour(Bit(i, 0x10, 0x10), Bit(i, 0x20, 0x20), Bit(i, 0x40, 0x40), Bit(i, 0x80, 0x80));
    PushedAdds(Sum(Sum(Bit(i, 0x01, 0x01), Bit(i, 0x02, 0x02)), Sum(Bit(i, 0x04, 0x04), Bit(i, 0x08, 0x08))),
      Sum(Sum(Bit(i, 0x10, 0x10), Bit(i, 0x20, 0x20)), Sum(Bit(i, 0x40, 0x40), Bit(i, 0x80, 0x80))), 15);
  }

  lemma FirstRolls(c: byte)
    requires GIT.Valid()
    ensures Wide(c) < 256 && Hash(GIT, [c]) == Wide(c)
  {
    assert [c][..0] == [];
    RollIs(GIT, 0, c);
    NothingThere(Wide(c));
    hide Wide;
  }

  lemma NothingThere(c: bv32)
    requires c < 256
    ensures Sum(WithByte(0, c), TableT(Top(0))) == c
  {}

  lemma {:induction false} HashIsPushed(c: byte, n: nat)
    requires GIT.Valid()
    ensures Wide(c) < 256 && Hash(GIT, [c] + Zeros(n)) == Pushed(Wide(c), n)
  {
    hide *;
    FirstRolls(c);
    PushedNext(Wide(c), if n == 0 then 0 else n - 1);
    if n == 0 {
      NoHash(GIT);
      assert [c] + Zeros(0) == [c];
    } else {
      HashIsPushed(c, n - 1);
      ZerosNext(c, n - 1);
      HashNext(GIT, [c] + Zeros(n - 1), 0);
    }
  }

  lemma EntryIsHash(c: byte)
    requires GIT.Valid()
    ensures TableU(Wide(c)) == Hash(GIT, [c] + Zeros(RABIN_WINDOW - 1))
  {
    assert RABIN_WINDOW - 1 == 15;
    HashIsPushed(c, 15);
    BytePushed(Wide(c));
    hide Hash, Zeros, Pushed, PartsU, Wide;
  }

  /** The tables of diff-delta.c are what the rolling hash needs. */
  lemma GitMatches()
    ensures GIT.Valid() && Matching(GIT)
  {
    hide Linear, Hash, Tables.Valid, Wide, Zeros, TableT, TableU;
    GitValid();
    GitLinear();
    forall c: byte ensures GIT.U(Wide(c)) == Hash(GIT, [c] + Zeros(RABIN_WINDOW - 1)) {
      EntryIsHash(c);
    }
  }
}
