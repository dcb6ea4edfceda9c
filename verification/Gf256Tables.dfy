/** The antilogarithm and logarithm tables of GF(2^8)/0x11D (`gf256_exp`, `gf256_log`). */
module Gf256Tables {

  function Exp0(k: int): int {
    match k
    case 0 => 0x01 case 1 => 0x02 case 2 => 0x04 case 3 => 0x08 case 4 => 0x10 case 5 => 0x20 case 6 => 0x40 case 7 => 0x80
    case 8 => 0x1d case 9 => 0x3a case 10 => 0x74 case 11 => 0xe8 case 12 => 0xcd case 13 => 0x87 case 14 => 0x13 case _ => 0x26
  }

  function Exp1(k: int): int {
    match k
    case 0 => 0x4c case 1 => 0x98 case 2 => 0x2d case 3 => 0x5a case 4 => 0xb4 case 5 => 0x75 case 6 => 0xea case 7 => 0xc9
    case 8 => 0x8f case 9 => 0x03 case 10 => 0x06 case 11 => 0x0c case 12 => 0x18 case 13 => 0x30 case 14 => 0x60 case _ => 0xc0
  }

  function Exp2(k: int): int {
    match k
    case 0 => 0x9d case 1 => 0x27 case 2 => 0x4e case 3 => 0x9c case 4 => 0x25 case 5 => 0x4a case 6 => 0x94 case 7 => 0x35
    case 8 => 0x6a case 9 => 0xd4 case 10 => 0xb5 case 11 => 0x77 case 12 => 0xee case 13 => 0xc1 case 14 => 0x9f case _ => 0x23
  }

  function Exp3(k: int): int {
    match k
    case 0 => 0x46 case 1 => 0x8c case 2 => 0x05 case 3 => 0x0a case 4 => 0x14 case 5 => 0x28 case 6 => 0x50 case 7 => 0xa0
    case 8 => 0x5d case 9 => 0xba case 10 => 0x69 case 11 => 0xd2 case 12 => 0xb9 case 13 => 0x6f case 14 => 0xde case _ => 0xa1
  }

  function Exp4(k: int): int {
    match k
    case 0 => 0x5f case 1 => 0xbe case 2 => 0x61 case 3 => 0xc2 case 4 => 0x99 case 5 => 0x2f case 6 => 0x5e case 7 => 0xbc
    case 8 => 0x65 case 9 => 0xca case 10 => 0x89 case 11 => 0x0f case 12 => 0x1e case 13 => 0x3c case 14 => 0x78 case _ => 0xf0
  }

  function Exp5(k: int): int {
    match k
    case 0 => 0xfd case 1 => 0xe7 case 2 => 0xd3 case 3 => 0xbb case 4 => 0x6b case 5 => 0xd6 case 6 => 0xb1 case 7 => 0x7f
    case 8 => 0xfe case 9 => 0xe1 case 10 => 0xdf case 11 => 0xa3 case 12 => 0x5b case 13 => 0xb6 case 14 => 0x71 case _ => 0xe2
  }

  function Exp6(k: int): int {
    match k
    case 0 => 0xd9 case 1 => 0xaf case 2 => 0x43 case 3 => 0x86 case 4 => 0x11 case 5 => 0x22 case 6 => 0x44 case 7 => 0x88
    case 8 => 0x0d case 9 => 0x1a case 10 => 0x34 case 11 => 0x68 case 12 => 0xd0 case 13 => 0xbd case 14 => 0x67 case _ => 0xce
  }

  function Exp7(k: int): int {
    match k
    case 0 => 0x81 case 1 => 0x1f case 2 => 0x3e case 3 => 0x7c case 4 => 0xf8 case 5 => 0xed case 6 => 0xc7 case 7 => 0x93
    case 8 => 0x3b case 9 => 0x76 case 10 => 0xec case 11 => 0xc5 case 12 => 0x97 case 13 => 0x33 case 14 => 0x66 case _ => 0xcc
  }

  function Exp8(k: int): int {
    match k
    case 0 => 0x85 case 1 => 0x17 case 2 => 0x2e case 3 => 0x5c case 4 => 0xb8 case 5 => 0x6d case 6 => 0xda case 7 => 0xa9
    case 8 => 0x4f case 9 => 0x9e case 10 => 0x21 case 11 => 0x42 case 12 => 0x84 case 13 => 0x15 case 14 => 0x2a case _ => 0x54
  }

  function Exp9(k: int): int {
    match k
    case 0 => 0xa8 case 1 => 0x4d case 2 => 0x9a case 3 => 0x29 case 4 => 0x52 case 5 => 0xa4 case 6 => 0x55 case 7 => 0xaa
    case 8 => 0x49 case 9 => 0x92 case 10 => 0x39 case 11 => 0x72 case 12 => 0xe4 case 13 => 0xd5 case 14 => 0xb7 case _ => 0x73
  }

  function Exp10(k: int): int {
    match k
    case 0 => 0xe6 case 1 => 0xd1 case 2 => 0xbf case 3 => 0x63 case 4 => 0xc6 case 5 => 0x91 case 6 => 0x3f case 7 => 0x7e
    case 8 => 0xfc case 9 => 0xe5 case 10 => 0xd7 case 11 => 0xb3 case 12 => 0x7b case 13 => 0xf6 case 14 => 0xf1 case _ => 0xff
  }

  function Exp11(k: int): int {
    match k
    case 0 => 0xe3 case 1 => 0xdb case 2 => 0xab case 3 => 0x4b case 4 => 0x96 case 5 => 0x31 case 6 => 0x62 case 7 => 0xc4
    case 8 => 0x95 case 9 => 0x37 case 10 => 0x6e case 11 => 0xdc case 12 => 0xa5 case 13 => 0x57 case 14 => 0xae case _ => 0x41
  }

  function Exp12(k: int): int {
    match k
    case 0 => 0x82 case 1 => 0x19 case 2 => 0x32 case 3 => 0x64 case 4 => 0xc8 case 5 => 0x8d case 6 => 0x07 case 7 => 0x0e
    case 8 => 0x1c case 9 => 0x38 case 10 => 0x70 case 11 => 0xe0 case 12 => 0xdd case 13 => 0xa7 case 14 => 0x53 case _ => 0xa6
  }

  function Exp13(k: int): int {
    match k
    case 0 => 0x51 case 1 => 0xa2 case 2 => 0x59 case 3 => 0xb2 case 4 => 0x79 case 5 => 0xf2 case 6 => 0xf9 case 7 => 0xef
    case 8 => 0xc3 case 9 => 0x9b case 10 => 0x2b case 11 => 0x56 case 12 => 0xac case 13 => 0x45 case 14 => 0x8a case _ => 0x09
  }

  function Exp14(k: int): int {
    match k
    case 0 => 0x12 case 1 => 0x24 case 2 => 0x48 case 3 => 0x90 case 4 => 0x3d case 5 => 0x7a case 6 => 0xf4 case 7 => 0xf5
    case 8 => 0xf7 case 9 => 0xf3 case 10 => 0xfb case 11 => 0xeb case 12 => 0xcb case 13 => 0x8b case 14 => 0x0b case _ => 0x16
  }

  function Exp15(k: int): int {
    match k
    case 0 => 0x2c case 1 => 0x58 case 2 => 0xb0 case 3 => 0x7d case 4 => 0xfa case 5 => 0xe9 case 6 => 0xcf case 7 => 0x83
    case 8 => 0x1b case 9 => 0x36 case 10 => 0x6c case 11 => 0xd8 case 12 => 0xad case 13 => 0x47 case 14 => 0x8e case _ => 0x01
  }

  function Exp(i: int): int {
    match i / 16
    case 0 => Exp0(i % 16) case 1 => Exp1(i % 16) case 2 => Exp2(i % 16) case 3 => Exp3(i % 16)
    case 4 => Exp4(i % 16) case 5 => Exp5(i % 16) case 6 => Exp6(i % 16) case 7 => Exp7(i % 16)
    case 8 => Exp8(i % 16) case 9 => Exp9(i % 16) case 10 => Exp10(i % 16) case 11 => Exp11(i % 16)
    case 12 => Exp12(i % 16) case 13 => Exp13(i % 16) case 14 => Exp14(i % 16) case _ => Exp15(i % 16)
  }

  function Log0(k: int): int {
    match k
    case 0 => 0x00 case 1 => 0xff case 2 => 0x01 case 3 => 0x19 case 4 => 0x02 case 5 => 0x32 case 6 => 0x1a case 7 => 0xc6
    case 8 => 0x03 case 9 => 0xdf case 10 => 0x33 case 11 => 0xee case 12 => 0x1b case 13 => 0x68 case 14 => 0xc7 case _ => 0x4b
  }

  function Log1(k: int): int {
    match k
    case 0 => 0x04 case 1 => 0x64 case 2 => 0xe0 case 3 => 0x0e case 4 => 0x34 case 5 => 0x8d case 6 => 0xef case 7 => 0x81
    case 8 => 0x1c case 9 => 0xc1 case 10 => 0x69 case 11 => 0xf8 case 12 => 0xc8 case 13 => 0x08 case 14 => 0x4c case _ => 0x71
  }

  function Log2(k: int): int {
    match k
    case 0 => 0x05 case 1 => 0x8a case 2 => 0x65 case 3 => 0x2f case 4 => 0xe1 case 5 => 0x24 case 6 => 0x0f case 7 => 0x21
    case 8 => 0x35 case 9 => 0x93 case 10 => 0x8e case 11 => 0xda case 12 => 0xf0 case 13 => 0x12 case 14 => 0x82 case _ => 0x45
  }

  function Log3(k: int): int {
    match k
    case 0 => 0x1d case 1 => 0xb5 case 2 => 0xc2 case 3 => 0x7d case 4 => 0x6a case 5 => 0x27 case 6 => 0xf9 case 7 => 0xb9
    case 8 => 0xc9 case 9 => 0x9a case 10 => 0x09 case 11 => 0x78 case 12 => 0x4d case 13 => 0xe4 case 14 => 0x72 case _ => 0xa6
  }

  function Log4(k: int): int {
    match k
    case 0 => 0x06 case 1 => 0xbf case 2 => 0x8b case 3 => 0x62 case 4 => 0x66 case 5 => 0xdd case 6 => 0x30 case 7 => 0xfd
    case 8 => 0xe2 case 9 => 0x98 case 10 => 0x25 case 11 => 0xb3 case 12 => 0x10 case 13 => 0x91 case 14 => 0x22 case _ => 0x88
  }

  function Log5(k: int): int {
    match k
    case 0 => 0x36 case 1 => 0xd0 case 2 => 0x94 case 3 => 0xce case 4 => 0x8f case 5 => 0x96 case 6 => 0xdb case 7 => 0xbd
    case 8 => 0xf1 case 9 => 0xd2 case 10 => 0x13 case 11 => 0x5c case 12 => 0x83 case 13 => 0x38 case 14 => 0x46 case _ => 0x40
  }

  function Log6(k: int): int {
    match k
    case 0 => 0x1e case 1 => 0x42 case 2 => 0xb6 case 3 => 0xa3 case 4 => 0xc3 case 5 => 0x48 case 6 => 0x7e case 7 => 0x6e
    case 8 => 0x6b case 9 => 0x3a case 10 => 0x28 case 11 => 0x54 case 12 => 0xfa case 13 => 0x85 case 14 => 0xba case _ => 0x3d
  }

  function Log7(k: int): int {
    match k
    case 0 => 0xca case 1 => 0x5e case 2 => 0x9b case 3 => 0x9f case 4 => 0x0a case 5 => 0x15 case 6 => 0x79 case 7 => 0x2b
    case 8 => 0x4e case 9 => 0xd4 case 10 => 0xe5 case 11 => 0xac case 12 => 0x73 case 13 => 0xf3 case 14 => 0xa7 case _ => 0x57
  }

  function Log8(k: int): int {
    match k
    case 0 => 0x07 case 1 => 0x70 case 2 => 0xc0 case 3 => 0xf7 case 4 => 0x8c case 5 => 0x80 case 6 => 0x63 case 7 => 0x0d
    case 8 => 0x67 case 9 => 0x4a case 10 => 0xde case 11 => 0xed case 12 => 0x31 case 13 => 0xc5 case 14 => 0xfe case _ => 0x18
  }

  function Log9(k: int): int {
    match k
    case 0 => 0xe3 case 1 => 0xa5 case 2 => 0x99 case 3 => 0x77 case 4 => 0x26 case 5 => 0xb8 case 6 => 0xb4 case 7 => 0x7c
    case 8 => 0x11 case 9 => 0x44 case 10 => 0x92 case 11 => 0xd9 case 12 => 0x23 case 13 => 0x20 case 14 => 0x89 case _ => 0x2e
  }

  function Log10(k: int): int {
    match k
    case 0 => 0x37 case 1 => 0x3f case 2 => 0xd1 case 3 => 0x5b case 4 => 0x95 case 5 => 0xbc case 6 => 0xcf case 7 => 0xcd
    case 8 => 0x90 case 9 => 0x87 case 10 => 0x97 case 11 => 0xb2 case 12 => 0xdc case 13 => 0xfc case 14 => 0xbe case _ => 0x61
  }

  function Log11(k: int): int {
    match k
    case 0 => 0xf2 case 1 => 0x56 case 2 => 0xd3 case 3 => 0xab case 4 => 0x14 case 5 => 0x2a case 6 => 0x5d case 7 => 0x9e
    case 8 => 0x84 case 9 => 0x3c case 10 => 0x39 case 11 => 0x53 case 12 => 0x47 case 13 => 0x6d case 14 => 0x41 case _ => 0xa2
  }

  function Log12(k: int): int {
    match k
    case 0 => 0x1f case 1 => 0x2d case 2 => 0x43 case 3 => 0xd8 case 4 => 0xb7 case 5 => 0x7b case 6 => 0xa4 case 7 => 0x76
    case 8 => 0xc4 case 9 => 0x17 case 10 => 0x49 case 11 => 0xec case 12 => 0x7f case 13 => 0x0c case 14 => 0x6f case _ => 0xf6
  }

  function Log13(k: int): int {
    match k
    case 0 => 0x6c case 1 => 0xa1 case 2 => 0x3b case 3 => 0x52 case 4 => 0x29 case 5 => 0x9d case 6 => 0x55 case 7 => 0xaa
    case 8 => 0xfb case 9 => 0x60 case 10 => 0x86 case 11 => 0xb1 case 12 => 0xbb case 13 => 0xcc case 14 => 0x3e case _ => 0x5a
  }

  function Log14(k: int): int {
    match k
    case 0 => 0xcb case 1 => 0x59 case 2 => 0x5f case 3 => 0xb0 case 4 => 0x9c case 5 => 0xa9 case 6 => 0xa0 case 7 => 0x51
    case 8 => 0x0b case 9 => 0xf5 case 10 => 0x16 case 11 => 0xeb case 12 => 0x7a case 13 => 0x75 case 14 => 0x2c case _ => 0xd7
  }

  function Log15(k: int): int {
    match k
    case 0 => 0x4f case 1 => 0xae case 2 => 0xd5 case 3 => 0xe9 case 4 => 0xe6 case 5 => 0xe7 case 6 => 0xad case 7 => 0xe8
    case 8 => 0x74 case 9 => 0xd6 case 10 => 0xf4 case 11 => 0xea case 12 => 0xa8 case 13 => 0x50 case 14 => 0x58 case _ => 0xaf
  }

  function Log(a: int): int {
    match a / 16
    case 0 => Log0(a % 16) case 1 => Log1(a % 16) case 2 => Log2(a % 16) case 3 => Log3(a % 16)
    case 4 => Log4(a % 16) case 5 => Log5(a % 16) case 6 => Log6(a % 16) case 7 => Log7(a % 16)
    case 8 => Log8(a % 16) case 9 => Log9(a % 16) case 10 => Log10(a % 16) case 11 => Log11(a % 16)
    case 12 => Log12(a % 16) case 13 => Log13(a % 16) case 14 => Log14(a % 16) case _ => Log15(a % 16)
  }

  /** Doubling in the field, written out bit by bit: x^8 is x^4 + x^3 + x^2 + 1. */
  function Doubled(a: int): int {
    if a < 128 then 2 * a
    else
      var b := 2 * a - 256;
      b + 1 + (if b / 4 % 2 == 0 then 4 else -4) + (if b / 8 % 2 == 0 then 8 else -8)
        + (if b / 16 % 2 == 0 then 16 else -16)
  }

  // Facts checked by evaluating the tables, a stretch of entries at a time.

  lemma ExpStep0(i: nat)
    requires 0 <= i < 32
    ensures 0 < Exp(i) < 256 && Exp(i + 1) == Doubled(Exp(i))
  {}

  lemma ExpStep1(i: nat)
    requires 32 <= i < 64
    ensures 0 < Exp(i) < 256 && Exp(i + 1) == Doubled(Exp(i))
  {}

  lemma ExpStep2(i: nat)
    requires 64 <= i < 96
    ensures 0 < Exp(i) < 256 && Exp(i + 1) == Doubled(Exp(i))
  {}

  lemma ExpStep3(i: nat)
    requires 96 <= i < 128
    ensures 0 < Exp(i) < 256 && Exp(i + 1) == Doubled(Exp(i))
  {}

  lemma ExpStep4(i: nat)
    requires 128 <= i < 160
    ensures 0 < Exp(i) < 256 && Exp(i + 1) == Doubled(Exp(i))
  {}

  lemma ExpStep5(i: nat)
    requires 160 <= i < 192
    ensures 0 < Exp(i) < 256 && Exp(i + 1) == Doubled(Exp(i))
  {}

  lemma ExpStep6(i: nat)
    requires 192 <= i < 224
    ensures 0 < Exp(i) < 256 && Exp(i + 1) == Doubled(Exp(i))
  {}

  lemma ExpStep7(i: nat)
    requires 224 <= i < 255
    ensures 0 < Exp(i) < 256 && Exp(i + 1) == Doubled(Exp(i))
  {}

  lemma ExpIsOne(i: nat)
    requires 0 < i < 255
    ensures Exp(i) != 1
  {}

  lemma ExpOfLog0(a: nat)
    requires 1 <= a < 32
    ensures 0 < Log(a) < 256 && Exp(Log(a)) == a
  {}

  lemma ExpOfLog1(a: nat)
    requires 32 <= a < 64
    ensures 0 < Log(a) < 256 && Exp(Log(a)) == a
  {}

  lemma ExpOfLog2(a: nat)
    requires 64 <= a < 96
    ensures 0 < Log(a) < 256 && Exp(Log(a)) == a
  {}

  lemma ExpOfLog3(a: nat)
    requires 96 <= a < 128
    ensures 0 < Log(a) < 256 && Exp(Log(a)) == a
  {}

  lemma ExpOfLog4(a: nat)
    requires 128 <= a < 160
    ensures 0 < Log(a) < 256 && Exp(Log(a)) == a
  {}

  lemma ExpOfLog5(a: nat)
    requires 160 <= a < 192
    ensures 0 < Log(a) < 256 && Exp(Log(a)) == a
  {}

  lemma ExpOfLog6(a: nat)
    requires 192 <= a < 224
    ensures 0 < Log(a) < 256 && Exp(Log(a)) == a
  {}

  lemma ExpOfLog7(a: nat)
    requires 224 <= a < 256
    ensures 0 < Log(a) < 256 && Exp(Log(a)) == a
  {}

  /** Each antilogarithm is the double of the one before. */
  lemma ExpStep(i: nat)
    requires i < 255
    ensures 0 < Exp(i) < 256 && Exp(i + 1) == Doubled(Exp(i))
  {
    if i < 32 { ExpStep0(i); }
    else if i < 64 { ExpStep1(i); }
    else if i < 96 { ExpStep2(i); }
    else if i < 128 { ExpStep3(i); }
    else if i < 160 { ExpStep4(i); }
    else if i < 192 { ExpStep5(i); }
    else if i < 224 { ExpStep6(i); }
    else { ExpStep7(i); }
  }

  /** 0x02 has order 255. */
  lemma ExpOrder(i: nat)
    requires i <= 255
    ensures Exp(i) == 1 <==> i == 0 || i == 255
  {
    if 0 < i < 255 { ExpIsOne(i); }
  }

  /** Every non-zero byte is the antilogarithm of its logarithm. */
  lemma ExpOfLog(a: nat)
    requires 1 <= a < 256
    ensures 0 < Log(a) < 256 && Exp(Log(a)) == a
  {
    if a < 32 { ExpOfLog0(a); }
    else if a < 64 { ExpOfLog1(a); }
    else if a < 96 { ExpOfLog2(a); }
    else if a < 128 { ExpOfLog3(a); }
    else if a < 160 { ExpOfLog4(a); }
    else if a < 192 { ExpOfLog5(a); }
    else if a < 224 { ExpOfLog6(a); }
    else { ExpOfLog7(a); }
  }
}
