/** The table of common/crc16.c, and the rule by which each entry follows from the one at half
    its index. */
module Crc16Table {

  /** The number with one bit turned over; p is the power of two of that bit. */
  function Toggle(v: nat, p: nat): nat
    requires p > 0
  {
    if v / p % 2 == 0 then v + p else if v >= p then v - p else v
  }

  /** Exclusive or with 0x1021. */
  function Feed(v: nat): nat { Toggle(Toggle(Toggle(v, 1), 32), 4096) }

  /** Multiply by x and reduce. */
  function Double(c: nat): nat { if c < 0x8000 then 2 * c else Feed(2 * c - 0x1_0000) }

  /** One row of the table. */
  function Row(i: int, a: nat, b: nat, c: nat, d: nat, e: nat, f: nat, g: nat, h: nat): nat {
    if i == 0 then a else if i == 1 then b else if i == 2 then c else if i == 3 then d
    else if i == 4 then e else if i == 5 then f else if i == 6 then g else h
  }

  /** Entries 0x00 to 0x0F. */
  function Part0(i: nat): nat {
    if i < 0x08 then Row(i - 0x00, 0x0000, 0x1021, 0x2042, 0x3063, 0x4084, 0x50a5, 0x60c6, 0x70e7)
    else Row(i - 0x08, 0x8108, 0x9129, 0xa14a, 0xb16b, 0xc18c, 0xd1ad, 0xe1ce, 0xf1ef)
  }

  /** Entries 0x10 to 0x1F. */
  function Part1(i: nat): nat {
    if i < 0x18 then Row(i - 0x10, 0x1231, 0x0210, 0x3273, 0x2252, 0x52b5, 0x4294, 0x72f7, 0x62d6)
    else Row(i - 0x18, 0x9339, 0x8318, 0xb37b, 0xa35a, 0xd3bd, 0xc39c, 0xf3ff, 0xe3de)
  }

  /** Entries 0x20 to 0x2F. */
  function Part2(i: nat): nat {
    if i < 0x28 then Row(i - 0x20, 0x2462, 0x3443, 0x0420, 0x1401, 0x64e6, 0x74c7, 0x44a4, 0x5485)
    else Row(i - 0x28, 0xa56a, 0xb54b, 0x8528, 0x9509, 0xe5ee, 0xf5cf, 0xc5ac, 0xd58d)
  }

  /** Entries 0x30 to 0x3F. */
  function Part3(i: nat): nat {
    if i < 0x38 then Row(i - 0x30, 0x3653, 0x2672, 0x1611, 0x0630, 0x76d7, 0x66f6, 0x5695, 0x46b4)
    else Row(i - 0x38, 0xb75b, 0xa77a, 0x9719, 0x8738, 0xf7df, 0xe7fe, 0xd79d, 0xc7bc)
  }

  /** Entries 0x40 to 0x4F. */
  function Part4(i: nat): nat {
    if i < 0x48 then Row(i - 0x40, 0x48c4, 0x58e5, 0x6886, 0x78a7, 0x0840, 0x1861, 0x2802, 0x3823)
    else Row(i - 0x48, 0xc9cc, 0xd9ed, 0xe98e, 0xf9af, 0x8948, 0x9969, 0xa90a, 0xb92b)
  }

  /** Entries 0x50 to 0x5F. */
  function Part5(i: nat): nat {
    if i < 0x58 then Row(i - 0x50, 0x5af5, 0x4ad4, 0x7ab7, 0x6a96, 0x1a71, 0x0a50, 0x3a33, 0x2a12)
    else Row(i - 0x58, 0xdbfd, 0xcbdc, 0xfbbf, 0xeb9e, 0x9b79, 0x8b58, 0xbb3b, 0xab1a)
  }

  /** Entries 0x60 to 0x6F. */
  function Part6(i: nat): nat {
    if i < 0x68 then Row(i - 0x60, 0x6ca6, 0x7c87, 0x4ce4, 0x5cc5, 0x2c22, 0x3c03, 0x0c60, 0x1c41)
    else Row(i - 0x68, 0xedae, 0xfd8f, 0xcdec, 0xddcd, 0xad2a, 0xbd0b, 0x8d68, 0x9d49)
  }

  /** Entries 0x70 to 0x7F. */
  function Part7(i: nat): nat {
    if i < 0x78 then Row(i - 0x70, 0x7e97, 0x6eb6, 0x5ed5, 0x4ef4, 0x3e13, 0x2e32, 0x1e51, 0x0e70)
    else Row(i - 0x78, 0xff9f, 0xefbe, 0xdfdd, 0xcffc, 0xbf1b, 0xaf3a, 0x9f59, 0x8f78)
  }

  /** Entries 0x80 to 0x8F. */
  function Part8(i: nat): nat {
    if i < 0x88 then Row(i - 0x80, 0x9188, 0x81a9, 0xb1ca, 0xa1eb, 0xd10c, 0xc12d, 0xf14e, 0xe16f)
    else Row(i - 0x88, 0x1080, 0x00a1, 0x30c2, 0x20e3, 0x5004, 0x4025, 0x7046, 0x6067)
  }

  /** Entries 0x90 to 0x9F. */
  function Part9(i: nat): nat {
    if i < 0x98 then Row(i - 0x90, 0x83b9, 0x9398, 0xa3fb, 0xb3da, 0xc33d, 0xd31c, 0xe37f, 0xf35e)
    else Row(i - 0x98, 0x02b1, 0x1290, 0x22f3, 0x32d2, 0x4235, 0x5214, 0x6277, 0x7256)
  }

  /** Entries 0xA0 to 0xAF. */
  function PartA(i: nat): nat {
    if i < 0xA8 then Row(i - 0xA0, 0xb5ea, 0xa5cb, 0x95a8, 0x8589, 0xf56e, 0xe54f, 0xd52c, 0xc50d)
    else Row(i - 0xA8, 0x34e2, 0x24c3, 0x14a0, 0x0481, 0x7466, 0x6447, 0x5424, 0x4405)
  }

  /** Entries 0xB0 to 0xBF. */
  function PartB(i: nat): nat {
    if i < 0xB8 then Row(i - 0xB0, 0xa7db, 0xb7fa, 0x8799, 0x97b8, 0xe75f, 0xf77e, 0xc71d, 0xd73c)
    else Row(i - 0xB8, 0x26d3, 0x36f2, 0x0691, 0x16b0, 0x6657, 0x7676, 0x4615, 0x5634)
  }

  /** Entries 0xC0 to 0xCF. */
  function PartC(i: nat): nat {
    if i < 0xC8 then Row(i - 0xC0, 0xd94c, 0xc96d, 0xf90e, 0xe92f, 0x99c8, 0x89e9, 0xb98a, 0xa9ab)
    else Row(i - 0xC8, 0x5844, 0x4865, 0x7806, 0x6827, 0x18c0, 0x08e1, 0x3882, 0x28a3)
  }

  /** Entries 0xD0 to 0xDF. */
  function PartD(i: nat): nat {
    if i < 0xD8 then Row(i - 0xD0, 0xcb7d, 0xdb5c, 0xeb3f, 0xfb1e, 0x8bf9, 0x9bd8, 0xabbb, 0xbb9a)
    else Row(i - 0xD8, 0x4a75, 0x5a54, 0x6a37, 0x7a16, 0x0af1, 0x1ad0, 0x2ab3, 0x3a92)
  }

  /** Entries 0xE0 to 0xEF. */
  function PartE(i: nat): nat {
    if i < 0xE8 then Row(i - 0xE0, 0xfd2e, 0xed0f, 0xdd6c, 0xcd4d, 0xbdaa, 0xad8b, 0x9de8, 0x8dc9)
    else Row(i - 0xE8, 0x7c26, 0x6c07, 0x5c64, 0x4c45, 0x3ca2, 0x2c83, 0x1ce0, 0x0cc1)
  }

  /** Entries 0xF0 to 0xFF. */
  function PartF(i: nat): nat {
    if i < 0xF8 then Row(i - 0xF0, 0xef1f, 0xff3e, 0xcf5d, 0xdf7c, 0xaf9b, 0xbfba, 0x8fd9, 0x9ff8)
    else Row(i - 0xF8, 0x6e17, 0x7e36, 0x4e55, 0x5e74, 0x2e93, 0x3eb2, 0x0ed1, 0x1ef0)
  }

  /** crc16_tab. */
  function Table(i: nat): nat {
    if i < 0x10 then Part0(i)
    else if i < 0x20 then Part1(i)
    else if i < 0x30 then Part2(i)
    else if i < 0x40 then Part3(i)
    else if i < 0x50 then Part4(i)
    else if i < 0x60 then Part5(i)
    else if i < 0x70 then Part6(i)
    else if i < 0x80 then Part7(i)
    else if i < 0x90 then Part8(i)
    else if i < 0xA0 then Part9(i)
    else if i < 0xB0 then PartA(i)
    else if i < 0xC0 then PartB(i)
    else if i < 0xD0 then PartC(i)
    else if i < 0xE0 then PartD(i)
    else if i < 0xF0 then PartE(i)
    else PartF(i)
  }

  /** The entry at twice an index is the double of the entry there, and the one behind it
      has 0x1021 added. */
  predicate Doubles(j: nat) {
    Table(j) < 0x1_0000 && Table(2 * j) == Double(Table(j)) && Table(2 * j + 1) == Feed(Table(2 * j))
  }

  lemma Block00(j: nat)
    requires 0x00 <= j < 0x04
    ensures Doubles(j)
  {}

  lemma Block04(j: nat)
    requires 0x04 <= j < 0x08
    ensures Doubles(j)
  {}

  lemma Block08(j: nat)
    requires 0x08 <= j < 0x0C
    ensures Doubles(j)
  {}

  lemma Block0C(j: nat)
    requires 0x0C <= j < 0x10
    ensures Doubles(j)
  {}

  lemma Block10(j: nat)
    requires 0x10 <= j < 0x14
    ensures Doubles(j)
  {}

  lemma Block14(j: nat)
    requires 0x14 <= j < 0x18
    ensures Doubles(j)
  {}

  lemma Block18(j: nat)
    requires 0x18 <= j < 0x1C
    ensures Doubles(j)
  {}

  lemma Block1C(j: nat)
    requires 0x1C <= j < 0x20
    ensures Doubles(j)
  {}

  lemma Block20(j: nat)
    requires 0x20 <= j < 0x24
    ensures Doubles(j)
  {}

  lemma Block24(j: nat)
    requires 0x24 <= j < 0x28
    ensures Doubles(j)
  {}

  lemma Block28(j: nat)
    requires 0x28 <= j < 0x2C
    ensures Doubles(j)
  {}

  lemma Block2C(j: nat)
    requires 0x2C <= j < 0x30
    ensures Doubles(j)
  {}

  lemma Block30(j: nat)
    requires 0x30 <= j < 0x34
    ensures Doubles(j)
  {}

  lemma Block34(j: nat)
    requires 0x34 <= j < 0x38
    ensures Doubles(j)
  {}

  lemma Block38(j: nat)
    requires 0x38 <= j < 0x3C
    ensures Doubles(j)
  {}

  lemma Block3C(j: nat)
    requires 0x3C <= j < 0x40
    ensures Doubles(j)
  {}

  lemma Block40(j: nat)
    requires 0x40 <= j < 0x44
    ensures Doubles(j)
  {}

  lemma Block44(j: nat)
    requires 0x44 <= j < 0x48
    ensures Doubles(j)
  {}

  lemma Block48(j: nat)
    requires 0x48 <= j < 0x4C
    ensures Doubles(j)
  {}

  lemma Block4C(j: nat)
    requires 0x4C <= j < 0x50
    ensures Doubles(j)
  {}

  lemma Block50(j: nat)
    requires 0x50 <= j < 0x54
    ensures Doubles(j)
  {}

  lemma Block54(j: nat)
    requires 0x54 <= j < 0x58
    ensures Doubles(j)
  {}

  lemma Block58(j: nat)
    requires 0x58 <= j < 0x5C
    ensures Doubles(j)
  {}

  lemma Block5C(j: nat)
    requires 0x5C <= j < 0x60
    ensures Doubles(j)
  {}

  lemma Block60(j: nat)
    requires 0x60 <= j < 0x64
    ensures Doubles(j)
  {}

  lemma Block64(j: nat)
    requires 0x64 <= j < 0x68
    ensures Doubles(j)
  {}

  lemma Block68(j: nat)
    requires 0x68 <= j < 0x6C
    ensures Doubles(j)
  {}

  lemma Block6C(j: nat)
    requires 0x6C <= j < 0x70
    ensures Doubles(j)
  {}

  lemma Block70(j: nat)
    requires 0x70 <= j < 0x74
    ensures Doubles(j)
  {}

  lemma Block74(j: nat)
    requires 0x74 <= j < 0x78
    ensures Doubles(j)
  {}

  lemma Block78(j: nat)
    requires 0x78 <= j < 0x7C
    ensures Doubles(j)
  {}

  lemma Block7C(j: nat)
    requires 0x7C <= j < 0x80
    ensures Doubles(j)
  {}

  lemma Quarter0(j: nat)
    requires 0x00 <= j < 0x20
    ensures Doubles(j)
  {
    if j < 0x04 {
      Block00(j);
    } else if j < 0x08 {
      Block04(j);
    } else if j < 0x0C {
      Block08(j);
    } else if j < 0x10 {
      Block0C(j);
    } else if j < 0x14 {
      Block10(j);
    } else if j < 0x18 {
      Block14(j);
    } else if j < 0x1C {
      Block18(j);
    } else {
      Block1C(j);
    }
  }

  lemma Quarter1(j: nat)
    requires 0x20 <= j < 0x40
    ensures Doubles(j)
  {
    if j < 0x24 {
      Block20(j);
    } else if j < 0x28 {
      Block24(j);
    } else if j < 0x2C {
      Block28(j);
    } else if j < 0x30 {
      Block2C(j);
    } else if j < 0x34 {
      Block30(j);
    } else if j < 0x38 {
      Block34(j);
    } else if j < 0x3C {
      Block38(j);
    } else {
      Block3C(j);
    }
  }

  lemma Quarter2(j: nat)
    requires 0x40 <= j < 0x60
    ensures Doubles(j)
  {
    if j < 0x44 {
      Block40(j);
    } else if j < 0x48 {
      Block44(j);
    } else if j < 0x4C {
      Block48(j);
    } else if j < 0x50 {
      Block4C(j);
    } else if j < 0x54 {
      Block50(j);
    } else if j < 0x58 {
      Block54(j);
    } else if j < 0x5C {
      Block58(j);
    } else {
      Block5C(j);
    }
  }

  lemma Quarter3(j: nat)
    requires 0x60 <= j < 0x80
    ensures Doubles(j)
  {
    if j < 0x64 {
      Block60(j);
    } else if j < 0x68 {
      Block64(j);
    } else if j < 0x6C {
      Block68(j);
    } else if j < 0x70 {
      Block6C(j);
    } else if j < 0x74 {
      Block70(j);
    } else if j < 0x78 {
      Block74(j);
    } else if j < 0x7C {
      Block78(j);
    } else {
      Block7C(j);
    }
  }

  lemma TableDoubles(j: nat)
    requires j < 0x80
    ensures Doubles(j)
  {
    if j < 0x20 {
      Quarter0(j);
    } else if j < 0x40 {
      Quarter1(j);
    } else if j < 0x60 {
      Quarter2(j);
    } else {
      Quarter3(j);
    }
  }

  lemma TableBound(i: nat)
    requires i < 0x100
    ensures Table(i) < 0x1_0000
  {}

  lemma ZeroEntry()
    ensures Table(0) == 0
  {}
}
