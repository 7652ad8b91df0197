/** The table crctab of deltaupgmcu.py, in sixteen rows of sixteen entries, and the
    proof that every one of its 256 entries is eight division steps of its index. */
module CrcTable {
  import opened CrcRegister

  function Crctab(i: bv8): bv32 {
    var low := i & 15;
    match i >> 4
    case 0 => Row0(low)
    case 1 => Row1(low)
    case 2 => Row2(low)
    case 3 => Row3(low)
    case 4 => Row4(low)
    case 5 => Row5(low)
    case 6 => Row6(low)
    case 7 => Row7(low)
    case 8 => Row8(low)
    case 9 => Row9(low)
    case 10 => Row10(low)
    case 11 => Row11(low)
    case 12 => Row12(low)
    case 13 => Row13(low)
    case 14 => Row14(low)
    case _ => Row15(low)
  }

  function Row0(low: bv8): bv32 {
    match low
    case 0 => 0x00000000 case 1 => 0x04C11DB7
    case 2 => 0x09823B6E case 3 => 0x0D4326D9
    case 4 => 0x130476DC case 5 => 0x17C56B6B
    case 6 => 0x1A864DB2 case 7 => 0x1E475005
    case 8 => 0x2608EDB8 case 9 => 0x22C9F00F
    case 10 => 0x2F8AD6D6 case 11 => 0x2B4BCB61
    case 12 => 0x350C9B64 case 13 => 0x31CD86D3
    case 14 => 0x3C8EA00A case _ => 0x384FBDBD
  }

  function Row1(low: bv8): bv32 {
    match low
    case 0 => 0x4C11DB70 case 1 => 0x48D0C6C7
    case 2 => 0x4593E01E case 3 => 0x4152FDA9
    case 4 => 0x5F15ADAC case 5 => 0x5BD4B01B
    case 6 => 0x569796C2 case 7 => 0x52568B75
    case 8 => 0x6A1936C8 case 9 => 0x6ED82B7F
    case 10 => 0x639B0DA6 case 11 => 0x675A1011
    case 12 => 0x791D4014 case 13 => 0x7DDC5DA3
    case 14 => 0x709F7B7A case _ => 0x745E66CD
  }

  function Row2(low: bv8): bv32 {
    match low
    case 0 => 0x9823B6E0 case 1 => 0x9CE2AB57
    case 2 => 0x91A18D8E case 3 => 0x95609039
    case 4 => 0x8B27C03C case 5 => 0x8FE6DD8B
    case 6 => 0x82A5FB52 case 7 => 0x8664E6E5
    case 8 => 0xBE2B5B58 case 9 => 0xBAEA46EF
    case 10 => 0xB7A96036 case 11 => 0xB3687D81
    case 12 => 0xAD2F2D84 case 13 => 0xA9EE3033
    case 14 => 0xA4AD16EA case _ => 0xA06C0B5D
  }

  function Row3(low: bv8): bv32 {
    match low
    case 0 => 0xD4326D90 case 1 => 0xD0F37027
    case 2 => 0xDDB056FE case 3 => 0xD9714B49
    case 4 => 0xC7361B4C case 5 => 0xC3F706FB
    case 6 => 0xCEB42022 case 7 => 0xCA753D95
    case 8 => 0xF23A8028 case 9 => 0xF6FB9D9F
    case 10 => 0xFBB8BB46 case 11 => 0xFF79A6F1
    case 12 => 0xE13EF6F4 case 13 => 0xE5FFEB43
    case 14 => 0xE8BCCD9A case _ => 0xEC7DD02D
  }

  function Row4(low: bv8): bv32 {
    match low
    case 0 => 0x34867077 case 1 => 0x30476DC0
    case 2 => 0x3D044B19 case 3 => 0x39C556AE
    case 4 => 0x278206AB case 5 => 0x23431B1C
    case 6 => 0x2E003DC5 case 7 => 0x2AC12072
    case 8 => 0x128E9DCF case 9 => 0x164F8078
    case 10 => 0x1B0CA6A1 case 11 => 0x1FCDBB16
    case 12 => 0x018AEB13 case 13 => 0x054BF6A4
    case 14 => 0x0808D07D case _ => 0x0CC9CDCA
  }

  function Row5(low: bv8): bv32 {
    match low
    case 0 => 0x7897AB07 case 1 => 0x7C56B6B0
    case 2 => 0x71159069 case 3 => 0x75D48DDE
    case 4 => 0x6B93DDDB case 5 => 0x6F52C06C
    case 6 => 0x6211E6B5 case 7 => 0x66D0FB02
    case 8 => 0x5E9F46BF case 9 => 0x5A5E5B08
    case 10 => 0x571D7DD1 case 11 => 0x53DC6066
    case 12 => 0x4D9B3063 case 13 => 0x495A2DD4
    case 14 => 0x44190B0D case _ => 0x40D816BA
  }

  function Row6(low: bv8): bv32 {
    match low
    case 0 => 0xACA5C697 case 1 => 0xA864DB20
    case 2 => 0xA527FDF9 case 3 => 0xA1E6E04E
    case 4 => 0xBFA1B04B case 5 => 0xBB60ADFC
    case 6 => 0xB6238B25 case 7 => 0xB2E29692
    case 8 => 0x8AAD2B2F case 9 => 0x8E6C3698
    case 10 => 0x832F1041 case 11 => 0x87EE0DF6
    case 12 => 0x99A95DF3 case 13 => 0x9D684044
    case 14 => 0x902B669D case _ => 0x94EA7B2A
  }

  function Row7(low: bv8): bv32 {
    match low
    case 0 => 0xE0B41DE7 case 1 => 0xE4750050
    case 2 => 0xE9362689 case 3 => 0xEDF73B3E
    case 4 => 0xF3B06B3B case 5 => 0xF771768C
    case 6 => 0xFA325055 case 7 => 0xFEF34DE2
    case 8 => 0xC6BCF05F case 9 => 0xC27DEDE8
    case 10 => 0xCF3ECB31 case 11 => 0xCBFFD686
    case 12 => 0xD5B88683 case 13 => 0xD1799B34
    case 14 => 0xDC3ABDED case _ => 0xD8FBA05A
  }

  function Row8(low: bv8): bv32 {
    match low
    case 0 => 0x690CE0EE case 1 => 0x6DCDFD59
    case 2 => 0x608EDB80 case 3 => 0x644FC637
    case 4 => 0x7A089632 case 5 => 0x7EC98B85
    case 6 => 0x738AAD5C case 7 => 0x774BB0EB
    case 8 => 0x4F040D56 case 9 => 0x4BC510E1
    case 10 => 0x46863638 case 11 => 0x42472B8F
    case 12 => 0x5C007B8A case 13 => 0x58C1663D
    case 14 => 0x558240E4 case _ => 0x51435D53
  }

  function Row9(low: bv8): bv32 {
    match low
    case 0 => 0x251D3B9E case 1 => 0x21DC2629
    case 2 => 0x2C9F00F0 case 3 => 0x285E1D47
    case 4 => 0x36194D42 case 5 => 0x32D850F5
    case 6 => 0x3F9B762C case 7 => 0x3B5A6B9B
    case 8 => 0x0315D626 case 9 => 0x07D4CB91
    case 10 => 0x0A97ED48 case 11 => 0x0E56F0FF
    case 12 => 0x1011A0FA case 13 => 0x14D0BD4D
    case 14 => 0x19939B94 case _ => 0x1D528623
  }

  function Row10(low: bv8): bv32 {
    match low
    case 0 => 0xF12F560E case 1 => 0xF5EE4BB9
    case 2 => 0xF8AD6D60 case 3 => 0xFC6C70D7
    case 4 => 0xE22B20D2 case 5 => 0xE6EA3D65
    case 6 => 0xEBA91BBC case 7 => 0xEF68060B
    case 8 => 0xD727BBB6 case 9 => 0xD3E6A601
    case 10 => 0xDEA580D8 case 11 => 0xDA649D6F
    case 12 => 0xC423CD6A case 13 => 0xC0E2D0DD
    case 14 => 0xCDA1F604 case _ => 0xC960EBB3
  }

  function Row11(low: bv8): bv32 {
    match low
    case 0 => 0xBD3E8D7E case 1 => 0xB9FF90C9
    case 2 => 0xB4BCB610 case 3 => 0xB07DABA7
    case 4 => 0xAE3AFBA2 case 5 => 0xAAFBE615
    case 6 => 0xA7B8C0CC case 7 => 0xA379DD7B
    case 8 => 0x9B3660C6 case 9 => 0x9FF77D71
    case 10 => 0x92B45BA8 case 11 => 0x9675461F
    case 12 => 0x8832161A case 13 => 0x8CF30BAD
    case 14 => 0x81B02D74 case _ => 0x857130C3
  }

  function Row12(low: bv8): bv32 {
    match low
    case 0 => 0x5D8A9099 case 1 => 0x594B8D2E
    case 2 => 0x5408ABF7 case 3 => 0x50C9B640
    case 4 => 0x4E8EE645 case 5 => 0x4A4FFBF2
    case 6 => 0x470CDD2B case 7 => 0x43CDC09C
    case 8 => 0x7B827D21 case 9 => 0x7F436096
    case 10 => 0x7200464F case 11 => 0x76C15BF8
    case 12 => 0x68860BFD case 13 => 0x6C47164A
    case 14 => 0x61043093 case _ => 0x65C52D24
  }

  function Row13(low: bv8): bv32 {
    match low
    case 0 => 0x119B4BE9 case 1 => 0x155A565E
    case 2 => 0x18197087 case 3 => 0x1CD86D30
    case 4 => 0x029F3D35 case 5 => 0x065E2082
    case 6 => 0x0B1D065B case 7 => 0x0FDC1BEC
    case 8 => 0x3793A651 case 9 => 0x3352BBE6
    case 10 => 0x3E119D3F case 11 => 0x3AD08088
    case 12 => 0x2497D08D case 13 => 0x2056CD3A
    case 14 => 0x2D15EBE3 case _ => 0x29D4F654
  }

  function Row14(low: bv8): bv32 {
    match low
    case 0 => 0xC5A92679 case 1 => 0xC1683BCE
    case 2 => 0xCC2B1D17 case 3 => 0xC8EA00A0
    case 4 => 0xD6AD50A5 case 5 => 0xD26C4D12
    case 6 => 0xDF2F6BCB case 7 => 0xDBEE767C
    case 8 => 0xE3A1CBC1 case 9 => 0xE760D676
    case 10 => 0xEA23F0AF case 11 => 0xEEE2ED18
    case 12 => 0xF0A5BD1D case 13 => 0xF464A0AA
    case 14 => 0xF9278673 case _ => 0xFDE69BC4
  }

  function Row15(low: bv8): bv32 {
    match low
    case 0 => 0x89B8FD09 case 1 => 0x8D79E0BE
    case 2 => 0x803AC667 case 3 => 0x84FBDBD0
    case 4 => 0x9ABC8BD5 case 5 => 0x9E7D9662
    case 6 => 0x933EB0BB case 7 => 0x97FFAD0C
    case 8 => 0xAFB010B1 case 9 => 0xAB710D06
    case 10 => 0xA6322BDF case 11 => 0xA2F33668
    case 12 => 0xBCB4666D case 13 => 0xB8757BDA
    case 14 => 0xB5365D03 case _ => 0xB1F740B4
  }

  lemma Row0IsEightSteps(low: bv8)
    requires low < 16
    ensures Row0(low) == Shift8((low as bv32 + 0) << 24)
  {}

  lemma Row1IsEightSteps(low: bv8)
    requires low < 16
    ensures Row1(low) == Shift8((low as bv32 + 16) << 24)
  {}

  lemma Row2IsEightSteps(low: bv8)
    requires low < 16
    ensures Row2(low) == Shift8((low as bv32 + 32) << 24)
  {}

  lemma Row3IsEightSteps(low: bv8)
    requires low < 16
    ensures Row3(low) == Shift8((low as bv32 + 48) << 24)
  {}

  lemma Row4IsEightSteps(low: bv8)
    requires low < 16
    ensures Row4(low) == Shift8((low as bv32 + 64) << 24)
  {}

  lemma Row5IsEightSteps(low: bv8)
    requires low < 16
    ensures Row5(low) == Shift8((low as bv32 + 80) << 24)
  {}

  lemma Row6IsEightSteps(low: bv8)
    requires low < 16
    ensures Row6(low) == Shift8((low as bv32 + 96) << 24)
  {}

  lemma Row7IsEightSteps(low: bv8)
    requires low < 16
    ensures Row7(low) == Shift8((low as bv32 + 112) << 24)
  {}

  lemma Row8IsEightSteps(low: bv8)
    requires low < 16
    ensures Row8(low) == Shift8((low as bv32 + 128) << 24)
  {}

  lemma Row9IsEightSteps(low: bv8)
    requires low < 16
    ensures Row9(low) == Shift8((low as bv32 + 144) << 24)
  {}

  lemma Row10IsEightSteps(low: bv8)
    requires low < 16
    ensures Row10(low) == Shift8((low as bv32 + 160) << 24)
  {}

  lemma Row11IsEightSteps(low: bv8)
    requires low < 16
    ensures Row11(low) == Shift8((low as bv32 + 176) << 24)
  {}

  lemma Row12IsEightSteps(low: bv8)
    requires low < 16
    ensures Row12(low) == Shift8((low as bv32 + 192) << 24)
  {}

  lemma Row13IsEightSteps(low: bv8)
    requires low < 16
    ensures Row13(low) == Shift8((low as bv32 + 208) << 24)
  {}

  lemma Row14IsEightSteps(low: bv8)
    requires low < 16
    ensures Row14(low) == Shift8((low as bv32 + 224) << 24)
  {}

  lemma Row15IsEightSteps(low: bv8)
    requires low < 16
    ensures Row15(low) == Shift8((low as bv32 + 240) << 24)
  {}

  lemma SplitIndex(i: bv8)
    ensures ((i & 15) as bv32) + (((i >> 4) as bv32) << 4) == i as bv32
    ensures i & 15 < 16
  {}

  /** All 256 table entries are eight division steps of the index byte. */
  lemma TableIsEightSteps(i: bv8)
    ensures Crctab(i) == Shift8((i as bv32) << 24)
  {
    SplitIndex(i);
    var low := i & 15;
    match i >> 4
    case 0 => Row0IsEightSteps(low);
    case 1 => Row1IsEightSteps(low);
    case 2 => Row2IsEightSteps(low);
    case 3 => Row3IsEightSteps(low);
    case 4 => Row4IsEightSteps(low);
    case 5 => Row5IsEightSteps(low);
    case 6 => Row6IsEightSteps(low);
    case 7 => Row7IsEightSteps(low);
    case 8 => Row8IsEightSteps(low);
    case 9 => Row9IsEightSteps(low);
    case 10 => Row10IsEightSteps(low);
    case 11 => Row11IsEightSteps(low);
    case 12 => Row12IsEightSteps(low);
    case 13 => Row13IsEightSteps(low);
    case 14 => Row14IsEightSteps(low);
    case _ => Row15IsEightSteps(low);
  }
}
