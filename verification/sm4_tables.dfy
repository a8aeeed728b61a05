/** The two lookup tables of SM4 (sm4.cpp lines 22-75).

    `SM4_SBOX` is the S-box of GB/T 32907-2016; `SM4_SBOX_T[j]` is the
    S-box output pushed through the linear transform L, placed in the top
    byte. Both tables are written here row by row: row h holds the 16
    entries whose index has high nibble h, so that a proof about all 256
    entries can split into 16 small cases. */
module Sm4Tables {
  function SboxRow0(lo: bv8): bv8
  {
    if lo == 0x0 then 0xD6 else
    if lo == 0x1 then 0x90 else
    if lo == 0x2 then 0xE9 else
    if lo == 0x3 then 0xFE else
    if lo == 0x4 then 0xCC else
    if lo == 0x5 then 0xE1 else
    if lo == 0x6 then 0x3D else
    if lo == 0x7 then 0xB7 else
    if lo == 0x8 then 0x16 else
    if lo == 0x9 then 0xB6 else
    if lo == 0xA then 0x14 else
    if lo == 0xB then 0xC2 else
    if lo == 0xC then 0x28 else
    if lo == 0xD then 0xFB else
    if lo == 0xE then 0x2C else
    0x05
  }

  function SboxRow1(lo: bv8): bv8
  {
    if lo == 0x0 then 0x2B else
    if lo == 0x1 then 0x67 else
    if lo == 0x2 then 0x9A else
    if lo == 0x3 then 0x76 else
    if lo == 0x4 then 0x2A else
    if lo == 0x5 then 0xBE else
    if lo == 0x6 then 0x04 else
    if lo == 0x7 then 0xC3 else
    if lo == 0x8 then 0xAA else
    if lo == 0x9 then 0x44 else
    if lo == 0xA then 0x13 else
    if lo == 0xB then 0x26 else
    if lo == 0xC then 0x49 else
    if lo == 0xD then 0x86 else
    if lo == 0xE then 0x06 else
    0x99
  }

  function SboxRow2(lo: bv8): bv8
  {
    if lo == 0x0 then 0x9C else
    if lo == 0x1 then 0x42 else
    if lo == 0x2 then 0x50 else
    if lo == 0x3 then 0xF4 else
    if lo == 0x4 then 0x91 else
    if lo == 0x5 then 0xEF else
    if lo == 0x6 then 0x98 else
    if lo == 0x7 then 0x7A else
    if lo == 0x8 then 0x33 else
    if lo == 0x9 then 0x54 else
    if lo == 0xA then 0x0B else
    if lo == 0xB then 0x43 else
    if lo == 0xC then 0xED else
    if lo == 0xD then 0xCF else
    if lo == 0xE then 0xAC else
    0x62
  }

  function SboxRow3(lo: bv8): bv8
  {
    if lo == 0x0 then 0xE4 else
    if lo == 0x1 then 0xB3 else
    if lo == 0x2 then 0x1C else
    if lo == 0x3 then 0xA9 else
    if lo == 0x4 then 0xC9 else
    if lo == 0x5 then 0x08 else
    if lo == 0x6 then 0xE8 else
    if lo == 0x7 then 0x95 else
    if lo == 0x8 then 0x80 else
    if lo == 0x9 then 0xDF else
    if lo == 0xA then 0x94 else
    if lo == 0xB then 0xFA else
    if lo == 0xC then 0x75 else
    if lo == 0xD then 0x8F else
    if lo == 0xE then 0x3F else
    0xA6
  }

  function SboxRow4(lo: bv8): bv8
  {
    if lo == 0x0 then 0x47 else
    if lo == 0x1 then 0x07 else
    if lo == 0x2 then 0xA7 else
    if lo == 0x3 then 0xFC else
    if lo == 0x4 then 0xF3 else
    if lo == 0x5 then 0x73 else
    if lo == 0x6 then 0x17 else
    if lo == 0x7 then 0xBA else
    if lo == 0x8 then 0x83 else
    if lo == 0x9 then 0x59 else
    if lo == 0xA then 0x3C else
    if lo == 0xB then 0x19 else
    if lo == 0xC then 0xE6 else
    if lo == 0xD then 0x85 else
    if lo == 0xE then 0x4F else
    0xA8
  }

  function SboxRow5(lo: bv8): bv8
  {
    if lo == 0x0 then 0x68 else
    if lo == 0x1 then 0x6B else
    if lo == 0x2 then 0x81 else
    if lo == 0x3 then 0xB2 else
    if lo == 0x4 then 0x71 else
    if lo == 0x5 then 0x64 else
    if lo == 0x6 then 0xDA else
    if lo == 0x7 then 0x8B else
    if lo == 0x8 then 0xF8 else
    if lo == 0x9 then 0xEB else
    if lo == 0xA then 0x0F else
    if lo == 0xB then 0x4B else
    if lo == 0xC then 0x70 else
    if lo == 0xD then 0x56 else
    if lo == 0xE then 0x9D else
    0x35
  }

  function SboxRow6(lo: bv8): bv8
  {
    if lo == 0x0 then 0x1E else
    if lo == 0x1 then 0x24 else
    if lo == 0x2 then 0x0E else
    if lo == 0x3 then 0x5E else
    if lo == 0x4 then 0x63 else
    if lo == 0x5 then 0x58 else
    if lo == 0x6 then 0xD1 else
    if lo == 0x7 then 0xA2 else
    if lo == 0x8 then 0x25 else
    if lo == 0x9 then 0x22 else
    if lo == 0xA then 0x7C else
    if lo == 0xB then 0x3B else
    if lo == 0xC then 0x01 else
    if lo == 0xD then 0x21 else
    if lo == 0xE then 0x78 else
    0x87
  }

  function SboxRow7(lo: bv8): bv8
  {
    if lo == 0x0 then 0xD4 else
    if lo == 0x1 then 0x00 else
    if lo == 0x2 then 0x46 else
    if lo == 0x3 then 0x57 else
    if lo == 0x4 then 0x9F else
    if lo == 0x5 then 0xD3 else
    if lo == 0x6 then 0x27 else
    if lo == 0x7 then 0x52 else
    if lo == 0x8 then 0x4C else
    if lo == 0x9 then 0x36 else
    if lo == 0xA then 0x02 else
    if lo == 0xB then 0xE7 else
    if lo == 0xC then 0xA0 else
    if lo == 0xD then 0xC4 else
    if lo == 0xE then 0xC8 else
    0x9E
  }

  function SboxRow8(lo: bv8): bv8
  {
    if lo == 0x0 then 0xEA else
    if lo == 0x1 then 0xBF else
    if lo == 0x2 then 0x8A else
    if lo == 0x3 then 0xD2 else
    if lo == 0x4 then 0x40 else
    if lo == 0x5 then 0xC7 else
    if lo == 0x6 then 0x38 else
    if lo == 0x7 then 0xB5 else
    if lo == 0x8 then 0xA3 else
    if lo == 0x9 then 0xF7 else
    if lo == 0xA then 0xF2 else
    if lo == 0xB then 0xCE else
    if lo == 0xC then 0xF9 else
    if lo == 0xD then 0x61 else
    if lo == 0xE then 0x15 else
    0xA1
  }

  function SboxRow9(lo: bv8): bv8
  {
    if lo == 0x0 then 0xE0 else
    if lo == 0x1 then 0xAE else
    if lo == 0x2 then 0x5D else
    if lo == 0x3 then 0xA4 else
    if lo == 0x4 then 0x9B else
    if lo == 0x5 then 0x34 else
    if lo == 0x6 then 0x1A else
    if lo == 0x7 then 0x55 else
    if lo == 0x8 then 0xAD else
    if lo == 0x9 then 0x93 else
    if lo == 0xA then 0x32 else
    if lo == 0xB then 0x30 else
    if lo == 0xC then 0xF5 else
    if lo == 0xD then 0x8C else
    if lo == 0xE then 0xB1 else
    0xE3
  }

  function SboxRow10(lo: bv8): bv8
  {
    if lo == 0x0 then 0x1D else
    if lo == 0x1 then 0xF6 else
    if lo == 0x2 then 0xE2 else
    if lo == 0x3 then 0x2E else
    if lo == 0x4 then 0x82 else
    if lo == 0x5 then 0x66 else
    if lo == 0x6 then 0xCA else
    if lo == 0x7 then 0x60 else
    if lo == 0x8 then 0xC0 else
    if lo == 0x9 then 0x29 else
    if lo == 0xA then 0x23 else
    if lo == 0xB then 0xAB else
    if lo == 0xC then 0x0D else
    if lo == 0xD then 0x53 else
    if lo == 0xE then 0x4E else
    0x6F
  }

  function SboxRow11(lo: bv8): bv8
  {
    if lo == 0x0 then 0xD5 else
    if lo == 0x1 then 0xDB else
    if lo == 0x2 then 0x37 else
    if lo == 0x3 then 0x45 else
    if lo == 0x4 then 0xDE else
    if lo == 0x5 then 0xFD else
    if lo == 0x6 then 0x8E else
    if lo == 0x7 then 0x2F else
    if lo == 0x8 then 0x03 else
    if lo == 0x9 then 0xFF else
    if lo == 0xA then 0x6A else
    if lo == 0xB then 0x72 else
    if lo == 0xC then 0x6D else
    if lo == 0xD then 0x6C else
    if lo == 0xE then 0x5B else
    0x51
  }

  function SboxRow12(lo: bv8): bv8
  {
    if lo == 0x0 then 0x8D else
    if lo == 0x1 then 0x1B else
    if lo == 0x2 then 0xAF else
    if lo == 0x3 then 0x92 else
    if lo == 0x4 then 0xBB else
    if lo == 0x5 then 0xDD else
    if lo == 0x6 then 0xBC else
    if lo == 0x7 then 0x7F else
    if lo == 0x8 then 0x11 else
    if lo == 0x9 then 0xD9 else
    if lo == 0xA then 0x5C else
    if lo == 0xB then 0x41 else
    if lo == 0xC then 0x1F else
    if lo == 0xD then 0x10 else
    if lo == 0xE then 0x5A else
    0xD8
  }

  function SboxRow13(lo: bv8): bv8
  {
    if lo == 0x0 then 0x0A else
    if lo == 0x1 then 0xC1 else
    if lo == 0x2 then 0x31 else
    if lo == 0x3 then 0x88 else
    if lo == 0x4 then 0xA5 else
    if lo == 0x5 then 0xCD else
    if lo == 0x6 then 0x7B else
    if lo == 0x7 then 0xBD else
    if lo == 0x8 then 0x2D else
    if lo == 0x9 then 0x74 else
    if lo == 0xA then 0xD0 else
    if lo == 0xB then 0x12 else
    if lo == 0xC then 0xB8 else
    if lo == 0xD then 0xE5 else
    if lo == 0xE then 0xB4 else
    0xB0
  }

  function SboxRow14(lo: bv8): bv8
  {
    if lo == 0x0 then 0x89 else
    if lo == 0x1 then 0x69 else
    if lo == 0x2 then 0x97 else
    if lo == 0x3 then 0x4A else
    if lo == 0x4 then 0x0C else
    if lo == 0x5 then 0x96 else
    if lo == 0x6 then 0x77 else
    if lo == 0x7 then 0x7E else
    if lo == 0x8 then 0x65 else
    if lo == 0x9 then 0xB9 else
    if lo == 0xA then 0xF1 else
    if lo == 0xB then 0x09 else
    if lo == 0xC then 0xC5 else
    if lo == 0xD then 0x6E else
    if lo == 0xE then 0xC6 else
    0x84
  }

  function SboxRow15(lo: bv8): bv8
  {
    if lo == 0x0 then 0x18 else
    if lo == 0x1 then 0xF0 else
    if lo == 0x2 then 0x7D else
    if lo == 0x3 then 0xEC else
    if lo == 0x4 then 0x3A else
    if lo == 0x5 then 0xDC else
    if lo == 0x6 then 0x4D else
    if lo == 0x7 then 0x20 else
    if lo == 0x8 then 0x79 else
    if lo == 0x9 then 0xEE else
    if lo == 0xA then 0x5F else
    if lo == 0xB then 0x3E else
    if lo == 0xC then 0xD7 else
    if lo == 0xD then 0xCB else
    if lo == 0xE then 0x39 else
    0x48
  }

  /** `SM4_SBOX[x]`. */
  function Sbox(x: bv8): bv8
  {
    var lo := x & 0xF;
    match x >> 4
    case 0 => SboxRow0(lo)
    case 1 => SboxRow1(lo)
    case 2 => SboxRow2(lo)
    case 3 => SboxRow3(lo)
    case 4 => SboxRow4(lo)
    case 5 => SboxRow5(lo)
    case 6 => SboxRow6(lo)
    case 7 => SboxRow7(lo)
    case 8 => SboxRow8(lo)
    case 9 => SboxRow9(lo)
    case 10 => SboxRow10(lo)
    case 11 => SboxRow11(lo)
    case 12 => SboxRow12(lo)
    case 13 => SboxRow13(lo)
    case 14 => SboxRow14(lo)
    case _ => SboxRow15(lo)
  }

  function SboxTRow0(lo: bv8): bv32
  {
    if lo == 0x0 then 0x8ED55B5B else
    if lo == 0x1 then 0xD0924242 else
    if lo == 0x2 then 0x4DEAA7A7 else
    if lo == 0x3 then 0x06FDFBFB else
    if lo == 0x4 then 0xFCCF3333 else
    if lo == 0x5 then 0x65E28787 else
    if lo == 0x6 then 0xC93DF4F4 else
    if lo == 0x7 then 0x6BB5DEDE else
    if lo == 0x8 then 0x4E165858 else
    if lo == 0x9 then 0x6EB4DADA else
    if lo == 0xA then 0x44145050 else
    if lo == 0xB then 0xCAC10B0B else
    if lo == 0xC then 0x8828A0A0 else
    if lo == 0xD then 0x17F8EFEF else
    if lo == 0xE then 0x9C2CB0B0 else
    0x11051414
  }

  function SboxTRow1(lo: bv8): bv32
  {
    if lo == 0x0 then 0x872BACAC else
    if lo == 0x1 then 0xFB669D9D else
    if lo == 0x2 then 0xF2986A6A else
    if lo == 0x3 then 0xAE77D9D9 else
    if lo == 0x4 then 0x822AA8A8 else
    if lo == 0x5 then 0x46BCFAFA else
    if lo == 0x6 then 0x14041010 else
    if lo == 0x7 then 0xCFC00F0F else
    if lo == 0x8 then 0x02A8AAAA else
    if lo == 0x9 then 0x54451111 else
    if lo == 0xA then 0x5F134C4C else
    if lo == 0xB then 0xBE269898 else
    if lo == 0xC then 0x6D482525 else
    if lo == 0xD then 0x9E841A1A else
    if lo == 0xE then 0x1E061818 else
    0xFD9B6666
  }

  function SboxTRow2(lo: bv8): bv32
  {
    if lo == 0x0 then 0xEC9E7272 else
    if lo == 0x1 then 0x4A430909 else
    if lo == 0x2 then 0x10514141 else
    if lo == 0x3 then 0x24F7D3D3 else
    if lo == 0x4 then 0xD5934646 else
    if lo == 0x5 then 0x53ECBFBF else
    if lo == 0x6 then 0xF89A6262 else
    if lo == 0x7 then 0x927BE9E9 else
    if lo == 0x8 then 0xFF33CCCC else
    if lo == 0x9 then 0x04555151 else
    if lo == 0xA then 0x270B2C2C else
    if lo == 0xB then 0x4F420D0D else
    if lo == 0xC then 0x59EEB7B7 else
    if lo == 0xD then 0xF3CC3F3F else
    if lo == 0xE then 0x1CAEB2B2 else
    0xEA638989
  }

  function SboxTRow3(lo: bv8): bv32
  {
    if lo == 0x0 then 0x74E79393 else
    if lo == 0x1 then 0x7FB1CECE else
    if lo == 0x2 then 0x6C1C7070 else
    if lo == 0x3 then 0x0DABA6A6 else
    if lo == 0x4 then 0xEDCA2727 else
    if lo == 0x5 then 0x28082020 else
    if lo == 0x6 then 0x48EBA3A3 else
    if lo == 0x7 then 0xC1975656 else
    if lo == 0x8 then 0x80820202 else
    if lo == 0x9 then 0xA3DC7F7F else
    if lo == 0xA then 0xC4965252 else
    if lo == 0xB then 0x12F9EBEB else
    if lo == 0xC then 0xA174D5D5 else
    if lo == 0xD then 0xB38D3E3E else
    if lo == 0xE then 0xC33FFCFC else
    0x3EA49A9A
  }

  function SboxTRow4(lo: bv8): bv32
  {
    if lo == 0x0 then 0x5B461D1D else
    if lo == 0x1 then 0x1B071C1C else
    if lo == 0x2 then 0x3BA59E9E else
    if lo == 0x3 then 0x0CFFF3F3 else
    if lo == 0x4 then 0x3FF0CFCF else
    if lo == 0x5 then 0xBF72CDCD else
    if lo == 0x6 then 0x4B175C5C else
    if lo == 0x7 then 0x52B8EAEA else
    if lo == 0x8 then 0x8F810E0E else
    if lo == 0x9 then 0x3D586565 else
    if lo == 0xA then 0xCC3CF0F0 else
    if lo == 0xB then 0x7D196464 else
    if lo == 0xC then 0x7EE59B9B else
    if lo == 0xD then 0x91871616 else
    if lo == 0xE then 0x734E3D3D else
    0x08AAA2A2
  }

  function SboxTRow5(lo: bv8): bv32
  {
    if lo == 0x0 then 0xC869A1A1 else
    if lo == 0x1 then 0xC76AADAD else
    if lo == 0x2 then 0x85830606 else
    if lo == 0x3 then 0x7AB0CACA else
    if lo == 0x4 then 0xB570C5C5 else
    if lo == 0x5 then 0xF4659191 else
    if lo == 0x6 then 0xB2D96B6B else
    if lo == 0x7 then 0xA7892E2E else
    if lo == 0x8 then 0x18FBE3E3 else
    if lo == 0x9 then 0x47E8AFAF else
    if lo == 0xA then 0x330F3C3C else
    if lo == 0xB then 0x674A2D2D else
    if lo == 0xC then 0xB071C1C1 else
    if lo == 0xD then 0x0E575959 else
    if lo == 0xE then 0xE99F7676 else
    0xE135D4D4
  }

  function SboxTRow6(lo: bv8): bv32
  {
    if lo == 0x0 then 0x661E7878 else
    if lo == 0x1 then 0xB4249090 else
    if lo == 0x2 then 0x360E3838 else
    if lo == 0x3 then 0x265F7979 else
    if lo == 0x4 then 0xEF628D8D else
    if lo == 0x5 then 0x38596161 else
    if lo == 0x6 then 0x95D24747 else
    if lo == 0x7 then 0x2AA08A8A else
    if lo == 0x8 then 0xB1259494 else
    if lo == 0x9 then 0xAA228888 else
    if lo == 0xA then 0x8C7DF1F1 else
    if lo == 0xB then 0xD73BECEC else
    if lo == 0xC then 0x05010404 else
    if lo == 0xD then 0xA5218484 else
    if lo == 0xE then 0x9879E1E1 else
    0x9B851E1E
  }

  function SboxTRow7(lo: bv8): bv32
  {
    if lo == 0x0 then 0x84D75353 else
    if lo == 0x1 then 0x00000000 else
    if lo == 0x2 then 0x5E471919 else
    if lo == 0x3 then 0x0B565D5D else
    if lo == 0x4 then 0xE39D7E7E else
    if lo == 0x5 then 0x9FD04F4F else
    if lo == 0x6 then 0xBB279C9C else
    if lo == 0x7 then 0x1A534949 else
    if lo == 0x8 then 0x7C4D3131 else
    if lo == 0x9 then 0xEE36D8D8 else
    if lo == 0xA then 0x0A020808 else
    if lo == 0xB then 0x7BE49F9F else
    if lo == 0xC then 0x20A28282 else
    if lo == 0xD then 0xD4C71313 else
    if lo == 0xE then 0xE8CB2323 else
    0xE69C7A7A
  }

  function SboxTRow8(lo: bv8): bv32
  {
    if lo == 0x0 then 0x42E9ABAB else
    if lo == 0x1 then 0x43BDFEFE else
    if lo == 0x2 then 0xA2882A2A else
    if lo == 0x3 then 0x9AD14B4B else
    if lo == 0x4 then 0x40410101 else
    if lo == 0x5 then 0xDBC41F1F else
    if lo == 0x6 then 0xD838E0E0 else
    if lo == 0x7 then 0x61B7D6D6 else
    if lo == 0x8 then 0x2FA18E8E else
    if lo == 0x9 then 0x2BF4DFDF else
    if lo == 0xA then 0x3AF1CBCB else
    if lo == 0xB then 0xF6CD3B3B else
    if lo == 0xC then 0x1DFAE7E7 else
    if lo == 0xD then 0xE5608585 else
    if lo == 0xE then 0x41155454 else
    0x25A38686
  }

  function SboxTRow9(lo: bv8): bv32
  {
    if lo == 0x0 then 0x60E38383 else
    if lo == 0x1 then 0x16ACBABA else
    if lo == 0x2 then 0x295C7575 else
    if lo == 0x3 then 0x34A69292 else
    if lo == 0x4 then 0xF7996E6E else
    if lo == 0x5 then 0xE434D0D0 else
    if lo == 0x6 then 0x721A6868 else
    if lo == 0x7 then 0x01545555 else
    if lo == 0x8 then 0x19AFB6B6 else
    if lo == 0x9 then 0xDF914E4E else
    if lo == 0xA then 0xFA32C8C8 else
    if lo == 0xB then 0xF030C0C0 else
    if lo == 0xC then 0x21F6D7D7 else
    if lo == 0xD then 0xBC8E3232 else
    if lo == 0xE then 0x75B3C6C6 else
    0x6FE08F8F
  }

  function SboxTRow10(lo: bv8): bv32
  {
    if lo == 0x0 then 0x691D7474 else
    if lo == 0x1 then 0x2EF5DBDB else
    if lo == 0x2 then 0x6AE18B8B else
    if lo == 0x3 then 0x962EB8B8 else
    if lo == 0x4 then 0x8A800A0A else
    if lo == 0x5 then 0xFE679999 else
    if lo == 0x6 then 0xE2C92B2B else
    if lo == 0x7 then 0xE0618181 else
    if lo == 0x8 then 0xC0C30303 else
    if lo == 0x9 then 0x8D29A4A4 else
    if lo == 0xA then 0xAF238C8C else
    if lo == 0xB then 0x07A9AEAE else
    if lo == 0xC then 0x390D3434 else
    if lo == 0xD then 0x1F524D4D else
    if lo == 0xE then 0x764F3939 else
    0xD36EBDBD
  }

  function SboxTRow11(lo: bv8): bv32
  {
    if lo == 0x0 then 0x81D65757 else
    if lo == 0x1 then 0xB7D86F6F else
    if lo == 0x2 then 0xEB37DCDC else
    if lo == 0x3 then 0x51441515 else
    if lo == 0x4 then 0xA6DD7B7B else
    if lo == 0x5 then 0x09FEF7F7 else
    if lo == 0x6 then 0xB68C3A3A else
    if lo == 0x7 then 0x932FBCBC else
    if lo == 0x8 then 0x0F030C0C else
    if lo == 0x9 then 0x03FCFFFF else
    if lo == 0xA then 0xC26BA9A9 else
    if lo == 0xB then 0xBA73C9C9 else
    if lo == 0xC then 0xD96CB5B5 else
    if lo == 0xD then 0xDC6DB1B1 else
    if lo == 0xE then 0x375A6D6D else
    0x15504545
  }

  function SboxTRow12(lo: bv8): bv32
  {
    if lo == 0x0 then 0xB98F3636 else
    if lo == 0x1 then 0x771B6C6C else
    if lo == 0x2 then 0x13ADBEBE else
    if lo == 0x3 then 0xDA904A4A else
    if lo == 0x4 then 0x57B9EEEE else
    if lo == 0x5 then 0xA9DE7777 else
    if lo == 0x6 then 0x4CBEF2F2 else
    if lo == 0x7 then 0x837EFDFD else
    if lo == 0x8 then 0x55114444 else
    if lo == 0x9 then 0xBDDA6767 else
    if lo == 0xA then 0x2C5D7171 else
    if lo == 0xB then 0x45400505 else
    if lo == 0xC then 0x631F7C7C else
    if lo == 0xD then 0x50104040 else
    if lo == 0xE then 0x325B6969 else
    0xB8DB6363
  }

  function SboxTRow13(lo: bv8): bv32
  {
    if lo == 0x0 then 0x220A2828 else
    if lo == 0x1 then 0xC5C20707 else
    if lo == 0x2 then 0xF531C4C4 else
    if lo == 0x3 then 0xA88A2222 else
    if lo == 0x4 then 0x31A79696 else
    if lo == 0x5 then 0xF9CE3737 else
    if lo == 0x6 then 0x977AEDED else
    if lo == 0x7 then 0x49BFF6F6 else
    if lo == 0x8 then 0x992DB4B4 else
    if lo == 0x9 then 0xA475D1D1 else
    if lo == 0xA then 0x90D34343 else
    if lo == 0xB then 0x5A124848 else
    if lo == 0xC then 0x58BAE2E2 else
    if lo == 0xD then 0x71E69797 else
    if lo == 0xE then 0x64B6D2D2 else
    0x70B2C2C2
  }

  function SboxTRow14(lo: bv8): bv32
  {
    if lo == 0x0 then 0xAD8B2626 else
    if lo == 0x1 then 0xCD68A5A5 else
    if lo == 0x2 then 0xCB955E5E else
    if lo == 0x3 then 0x624B2929 else
    if lo == 0x4 then 0x3C0C3030 else
    if lo == 0x5 then 0xCE945A5A else
    if lo == 0x6 then 0xAB76DDDD else
    if lo == 0x7 then 0x867FF9F9 else
    if lo == 0x8 then 0xF1649595 else
    if lo == 0x9 then 0x5DBBE6E6 else
    if lo == 0xA then 0x35F2C7C7 else
    if lo == 0xB then 0x2D092424 else
    if lo == 0xC then 0xD1C61717 else
    if lo == 0xD then 0xD66FB9B9 else
    if lo == 0xE then 0xDEC51B1B else
    0x94861212
  }

  function SboxTRow15(lo: bv8): bv32
  {
    if lo == 0x0 then 0x78186060 else
    if lo == 0x1 then 0x30F3C3C3 else
    if lo == 0x2 then 0x897CF5F5 else
    if lo == 0x3 then 0x5CEFB3B3 else
    if lo == 0x4 then 0xD23AE8E8 else
    if lo == 0x5 then 0xACDF7373 else
    if lo == 0x6 then 0x794C3535 else
    if lo == 0x7 then 0xA0208080 else
    if lo == 0x8 then 0x9D78E5E5 else
    if lo == 0x9 then 0x56EDBBBB else
    if lo == 0xA then 0x235E7D7D else
    if lo == 0xB then 0xC63EF8F8 else
    if lo == 0xC then 0x8BD45F5F else
    if lo == 0xD then 0xE7C82F2F else
    if lo == 0xE then 0xDD39E4E4 else
    0x68492121
  }

  /** `SM4_SBOX_T[x]`. */
  function SboxT(x: bv8): bv32
  {
    var lo := x & 0xF;
    match x >> 4
    case 0 => SboxTRow0(lo)
    case 1 => SboxTRow1(lo)
    case 2 => SboxTRow2(lo)
    case 3 => SboxTRow3(lo)
    case 4 => SboxTRow4(lo)
    case 5 => SboxTRow5(lo)
    case 6 => SboxTRow6(lo)
    case 7 => SboxTRow7(lo)
    case 8 => SboxTRow8(lo)
    case 9 => SboxTRow9(lo)
    case 10 => SboxTRow10(lo)
    case 11 => SboxTRow11(lo)
    case 12 => SboxTRow12(lo)
    case 13 => SboxTRow13(lo)
    case 14 => SboxTRow14(lo)
    case _ => SboxTRow15(lo)
  }

  // XOR and the fixed rotations of `rotl<n>` / `rotr<n>` as named word
  // operations, so that the algebra of L (linearity, commuting with
  // rotation) can be carried out on whole words rather than bit by bit.

  function Xor(a: bv32, b: bv32): bv32 { a ^ b }
  function Rotl2(a: bv32): bv32 { a.RotateLeft(2) }
  function Rotl10(a: bv32): bv32 { a.RotateLeft(10) }
  function Rotl18(a: bv32): bv32 { a.RotateLeft(18) }
  function Rotl24(a: bv32): bv32 { a.RotateLeft(24) }
  function Rotr8(a: bv32): bv32 { a.RotateRight(8) }
  function Rotr16(a: bv32): bv32 { a.RotateRight(16) }
  function Rotr24(a: bv32): bv32 { a.RotateRight(24) }

  /** The linear transform L of the encryption rounds:
      t ^ rotl2(t) ^ rotl10(t) ^ rotl18(t) ^ rotl24(t). */
  function L(t: bv32): bv32
  {
    Xor(Xor(Xor(Xor(t, Rotl2(t)), Rotl10(t)), Rotl18(t)), Rotl24(t))
  }

  /** The invariant the table comment states: every entry of `SM4_SBOX_T` is
      L applied to the matching S-box output in the top byte. */
  lemma {:induction false} SboxTIsL(x: bv8)
    ensures SboxT(x) == L((Sbox(x) as bv32) << 24)
  {
    match x >> 4
    case 0 => SboxTRow0Is(x);
    case 1 => SboxTRow1Is(x);
    case 2 => SboxTRow2Is(x);
    case 3 => SboxTRow3Is(x);
    case 4 => SboxTRow4Is(x);
    case 5 => SboxTRow5Is(x);
    case 6 => SboxTRow6Is(x);
    case 7 => SboxTRow7Is(x);
    case 8 => SboxTRow8Is(x);
    case 9 => SboxTRow9Is(x);
    case 10 => SboxTRow10Is(x);
    case 11 => SboxTRow11Is(x);
    case 12 => SboxTRow12Is(x);
    case 13 => SboxTRow13Is(x);
    case 14 => SboxTRow14Is(x);
    case _ => SboxTRow15Is(x);
  }

  lemma SboxTRow0Is(x: bv8)
    requires x >> 4 == 0
    ensures SboxT(x) == L((Sbox(x) as bv32) << 24)
  {
  }

  lemma SboxTRow1Is(x: bv8)
    requires x >> 4 == 1
    ensures SboxT(x) == L((Sbox(x) as bv32) << 24)
  {
  }

  lemma SboxTRow2Is(x: bv8)
    requires x >> 4 == 2
    ensures SboxT(x) == L((Sbox(x) as bv32) << 24)
  {
  }

  lemma SboxTRow3Is(x: bv8)
    requires x >> 4 == 3
    ensures SboxT(x) == L((Sbox(x) as bv32) << 24)
  {
  }

  lemma SboxTRow4Is(x: bv8)
    requires x >> 4 == 4
    ensures SboxT(x) == L((Sbox(x) as bv32) << 24)
  {
  }

  lemma SboxTRow5Is(x: bv8)
    requires x >> 4 == 5
    ensures SboxT(x) == L((Sbox(x) as bv32) << 24)
  {
  }

  lemma SboxTRow6Is(x: bv8)
    requires x >> 4 == 6
    ensures SboxT(x) == L((Sbox(x) as bv32) << 24)
  {
  }

  lemma SboxTRow7Is(x: bv8)
    requires x >> 4 == 7
    ensures SboxT(x) == L((Sbox(x) as bv32) << 24)
  {
  }

  lemma SboxTRow8Is(x: bv8)
    requires x >> 4 == 8
    ensures SboxT(x) == L((Sbox(x) as bv32) << 24)
  {
  }

  lemma SboxTRow9Is(x: bv8)
    requires x >> 4 == 9
    ensures SboxT(x) == L((Sbox(x) as bv32) << 24)
  {
  }

  lemma SboxTRow10Is(x: bv8)
    requires x >> 4 == 10
    ensures SboxT(x) == L((Sbox(x) as bv32) << 24)
  {
  }

  lemma SboxTRow11Is(x: bv8)
    requires x >> 4 == 11
    ensures SboxT(x) == L((Sbox(x) as bv32) << 24)
  {
  }

  lemma SboxTRow12Is(x: bv8)
    requires x >> 4 == 12
    ensures SboxT(x) == L((Sbox(x) as bv32) << 24)
  {
  }

  lemma SboxTRow13Is(x: bv8)
    requires x >> 4 == 13
    ensures SboxT(x) == L((Sbox(x) as bv32) << 24)
  {
  }

  lemma SboxTRow14Is(x: bv8)
    requires x >> 4 == 14
    ensures SboxT(x) == L((Sbox(x) as bv32) << 24)
  {
  }

  lemma SboxTRow15Is(x: bv8)
    requires x >> 4 == 15
    ensures SboxT(x) == L((Sbox(x) as bv32) << 24)
  {
  }
}
