/** Where do_bootm_linux of common/cmd_bootm.c puts the command line, the board info and the
    initial RAM disk, in 32-bit arithmetic. */
module BootPlacement {

  const W := 0x1_0000_0000

  function Sub(a: nat, b: nat): (r: nat)
    requires a < W && b < W
    ensures r < W
  {
    if a >= b then a - b else a + W - b
  }

  function Align16(a: nat): (r: nat)
    ensures r <= a < r + 16 && r % 16 == 0
  {
    a - a % 16
  }

  function AlignPage(a: nat): (r: nat)
    ensures r <= a < r + 4096 && r % 4096 == 0
  {
    a - a % 4096
  }

  /** stack: the stack pointer; mapsz: CFG_BOOTMAPSZ; bargs: CFG_BARGSIZE; bd: the size of
      the board info; high: initrd_high; len: the size of the RAM disk. */
  datatype Input = Input(stack: nat, mapsz: nat, bargs: nat, bd: nat, high: nat, len: nat)

  datatype Layout = Layout(limit: nat, cmdline: nat, kbd: nat, initrd: nat)

  /** All are words, and command line and board info fit below the limit. */
  predicate Fits(x: Input) {
    x.stack < W && x.mapsz < W && x.high < W && x.len < W &&
    2048 <= x.stack && x.bargs > 0 && x.bargs + x.bd + 32 <= Limit(x)
  }

  /** The upper limit for command line and board info. */
  function Limit(x: Input): nat
    requires 2048 <= x.stack
  {
    Align16(if x.stack - 2048 > x.mapsz then x.mapsz else x.stack - 2048)
  }

  /** The address of the RAM disk: below the board info, or high when it fits there. */
  function InitrdAt(x: Input, limit: nat, kbd: nat): nat
    requires x.stack < W && x.high < W && x.len < W && kbd < W && 2048 <= x.stack
  {
    var top := Align16(Sub(x.stack, 2048));
    var nsp := AlignPage(Sub(if top > x.high then x.high else top, x.len));
    if x.high != 0 && nsp >= limit then nsp else AlignPage(Sub(kbd, x.len))
  }

  /** The whole layout. */
  function Placement(x: Input): Layout
    requires Fits(x)
  {
    var cmdline := Align16(Limit(x) - x.bargs);
    var kbd := Align16(cmdline - x.bd);
    Layout(Limit(x), cmdline, kbd, InitrdAt(x, Limit(x), kbd))
  }

  /** The areas for command line and board info are in order below the limit. */
  predicate Below(x: Input, sp: nat, cmdline: nat, kbd: nat) {
    2048 <= x.stack && sp <= x.stack - 2048 && x.stack < W && x.high < W && x.len < W &&
    sp % 16 == 0 && cmdline < sp && cmdline + x.bargs <= sp && kbd + x.bd <= cmdline
  }

  /** The high address is below zero, so it wraps round, and the result is not below the limit. */
  predicate WrapsHigh(x: Input, limit: nat) {
    0 < x.high < x.len < W && AlignPage(x.high + W - x.len) >= limit
  }

  /** Where the RAM disk must end to lie high. */
  function Top(x: Input): nat
    requires 2048 <= x.stack
  {
    var top := Align16(x.stack - 2048);
    if top > x.high then x.high else top
  }

  /** There is room for the RAM disk between the limit and that address. */
  predicate FitsHigh(x: Input, limit: nat)
    requires 2048 <= x.stack
  {
    x.high != 0 && x.len <= Top(x) && AlignPage(Top(x) - x.len) >= limit
  }

  lemma SoundIf(x: Input, sp: nat, cmdline: nat, kbd: nat)
    requires Below(x, sp, cmdline, kbd) && x.len <= kbd && !WrapsHigh(x, sp)
    ensures Sound(x, Layout(sp, cmdline, kbd, InitrdAt(x, sp, kbd)))
  {}

  /** The wrapped address is chosen, and the RAM disk ends above initrd_high. */
  lemma UnsoundIf(x: Input, sp: nat, cmdline: nat, kbd: nat)
    requires Below(x, sp, cmdline, kbd) && x.len <= kbd && WrapsHigh(x, sp)
    ensures !Sound(x, Layout(sp, cmdline, kbd, InitrdAt(x, sp, kbd)))
  {}

  /** A disk of any size is well placed where it fits high. */
  lemma SoundHigh(x: Input, sp: nat, cmdline: nat, kbd: nat)
    requires Below(x, sp, cmdline, kbd) && FitsHigh(x, sp)
    ensures Sound(x, Layout(sp, cmdline, kbd, InitrdAt(x, sp, kbd)))
  {}

  /** A disk that is too large for the area below the board info is not, unless it fits high:
      the low address wraps round. */
  lemma UnsoundLow(x: Input, sp: nat, cmdline: nat, kbd: nat)
    requires Below(x, sp, cmdline, kbd) && 4096 <= kbd < x.len && !FitsHigh(x, sp)
    ensures !Sound(x, Layout(sp, cmdline, kbd, InitrdAt(x, sp, kbd)))
  {}

  lemma PlacementBelow(x: Input)
    requires Fits(x)
    ensures var p := Placement(x); Below(x, p.limit, p.cmdline, p.kbd)
  {}

  /** The areas are placed well, for a disk that fits below the board info, if and only if the
      high address does not wrap round; for a larger one if and only if it fits high, where
      only the "only if" needs a page below the board info. */
  lemma PlacementSound(x: Input)
    requires Fits(x)
    ensures x.len <= Placement(x).kbd ==> (Sound(x, Placement(x)) <==> !WrapsHigh(x, Limit(x)))
    ensures FitsHigh(x, Limit(x)) ==> Sound(x, Placement(x))
    ensures 4096 <= Placement(x).kbd < x.len ==> (Sound(x, Placement(x)) <==> FitsHigh(x, Limit(x)))
    ensures x.len <= Placement(x).kbd && Limit(x) <= 0x7FFF_0000 ==>
      (Sound(x, Placement(x)) <==> (x.high == 0 || x.high >= x.len))
  {
    PlacementBelow(x);
    var p := Placement(x);
    if FitsHigh(x, p.limit) {
      SoundHigh(x, p.limit, p.cmdline, p.kbd);
    } else if 4096 <= p.kbd < x.len {
      UnsoundLow(x, p.limit, p.cmdline, p.kbd);
    }
    if x.len <= p.kbd {
      if WrapsHigh(x, p.limit) {
        UnsoundIf(x, p.limit, p.cmdline, p.kbd);
      } else {
        SoundIf(x, p.limit, p.cmdline, p.kbd);
      }
    }
  }

  /** The RAM disk's part of do_bootm_linux. */
  method PlaceInitrd(x: Input, sp: nat, kbd: nat) returns (initrd: nat)
    requires x.stack < W && x.high < W && x.len < W && kbd < W && 2048 <= x.stack
    ensures initrd == InitrdAt(x, sp, kbd)
  {
    initrd := AlignPage(Sub(kbd, x.len));
    if x.high != 0 {
      var nsp := Align16(Sub(x.stack, 2048));
      if nsp > x.high {
        nsp := x.high;
      }
      nsp := AlignPage(Sub(nsp, x.len));
      if nsp >= sp {
        initrd := nsp;
      }
    }
  }

  /** The part above it: the limit, the command line and the board info. */
  method PlaceAreas(x: Input) returns (sp: nat, cmdline: nat, kbd: nat)
    requires Fits(x)
    ensures sp == Limit(x) && cmdline == Align16(sp - x.bargs) && kbd == Align16(cmdline - x.bd)
    ensures x.bargs <= sp && x.bd <= cmdline && kbd < W
  {
    sp := Sub(x.stack, 2048);
    if sp > x.mapsz {
      sp := x.mapsz;
    }
    sp := Align16(sp);
    cmdline := Align16(Sub(sp, x.bargs));
    kbd := Align16(Sub(cmdline, x.bd));
  }

  /** Each area is the highest at its alignment: command line and board info end within sixteen
      bytes of what is above them, the RAM disk within a page, and it lies high whenever it
      fits there. */
  lemma PlacementTight(x: Input)
    requires Fits(x)
    ensures var p := Placement(x); var free := if x.stack - 2048 > x.mapsz then x.mapsz else x.stack - 2048;
      && p.limit <= free < p.limit + 16 && p.limit % 16 == 0
      && p.cmdline + x.bargs <= p.limit < p.cmdline + x.bargs + 16 && p.cmdline % 16 == 0
      && p.kbd + x.bd <= p.cmdline < p.kbd + x.bd + 16 && p.kbd % 16 == 0
      && (FitsHigh(x, p.limit) ==> p.limit <= p.initrd && p.initrd + x.len <= Top(x) < p.initrd + x.len + 4096)
      && (x.high == 0 && x.len <= p.kbd ==> p.initrd + x.len <= p.kbd < p.initrd + x.len + 4096)
      && (x.high != 0 && x.len <= Top(x) && x.len <= p.kbd && !FitsHigh(x, p.limit) ==>
            p.initrd + x.len <= p.kbd < p.initrd + x.len + 4096)
  {}

  /** Where a RAM disk that lies high ends: at initrd_high, or sixteen-byte aligned below the
      stack reserve. */
  lemma TopExact(x: Input)
    requires 2048 <= x.stack < W
    ensures Top(x) <= x.high && Top(x) <= x.stack - 2048
    ensures Top(x) == x.high || (Top(x) % 16 == 0 && x.stack - 2048 < Top(x) + 16)
  {}

  /** What do_bootm_linux computes, with copying enabled. */
  method Place(x: Input) returns (p: Layout)
    requires Fits(x)
    ensures p == Placement(x)
    ensures x.len <= p.kbd ==> (Sound(x, p) <==> !WrapsHigh(x, p.limit))
    ensures FitsHigh(x, p.limit) ==> Sound(x, p) && p.limit <= p.initrd
    ensures 4096 <= p.kbd < x.len ==> (Sound(x, p) <==> FitsHigh(x, p.limit))
  {
    var sp, cmdline, kbd := PlaceAreas(x);
    var initrd := PlaceInitrd(x, sp, kbd);
    p := Layout(sp, cmdline, kbd, initrd);
    PlacementSound(x);
    PlacementTight(x);
  }

  predicate Disjoint(a: nat, n: nat, b: nat, m: nat) { a + n <= b || b + m <= a }

  /** The three areas are pairwise disjoint and below the stack with its reserve, the RAM
      disk starts on a page, and above the limit it ends at or below initrd_high. */
  predicate Sound(x: Input, p: Layout) {
    Disjoint(p.cmdline, x.bargs, p.kbd, x.bd) && Disjoint(p.cmdline, x.bargs, p.initrd, x.len) &&
    Disjoint(p.kbd, x.bd, p.initrd, x.len) &&
    p.cmdline + x.bargs <= x.stack - 2048 && p.kbd + x.bd <= x.stack - 2048 && p.initrd + x.len <= x.stack - 2048 &&
    p.initrd % 4096 == 0 && (p.initrd >= p.limit ==> p.initrd + x.len <= x.high)
  }

  /** Such a layout: initrd_high is 4096 and the RAM disk has 8192 bytes. */
  lemma WrapExample()
    ensures var x := Input(0x0100_0000, 0x0080_0000, 512, 100, 0x1000, 0x2000);
      Fits(x) && Placement(x).initrd == 0xFFFF_F000 && !Sound(x, Placement(x))
  {}

  /** A disk of 16 MB with the high placement off: its address wraps round. */
  lemma LargeDiskExample()
    ensures var x := Input(0x0400_0000, 0x0080_0000, 512, 100, 0, 0x0100_0000);
      Fits(x) && Placement(x).initrd > x.stack && !Sound(x, Placement(x))
  {}

  /** Without a page below the board info the low address may wrap to one that is just right,
      although the disk does not fit high. */
  lemma NarrowExample(x: Input)
    requires x == Input(0xFFFF_FFFF, 0x0010_0000, 0xF_FFD0, 16, 0xFFFF_FFFF, 0xFFEF_F7FF)
    ensures Fits(x) && Placement(x) == Layout(0x0010_0000, 48, 32, 0x0010_0000)
    ensures !FitsHigh(x, Limit(x)) && Sound(x, Placement(x))
  {
    NarrowPlaced(x);
    NarrowSound(x, Placement(x));
  }

  lemma NarrowPlaced(x: Input)
    requires x == Input(0xFFFF_FFFF, 0x0010_0000, 0xF_FFD0, 16, 0xFFFF_FFFF, 0xFFEF_F7FF)
    ensures Fits(x) && Placement(x) == Layout(0x0010_0000, 48, 32, 0x0010_0000) && !FitsHigh(x, Limit(x))
  {
    NarrowAreas(x);
    NarrowHigh(x);
    NarrowLayout(x, Limit(x));
  }

  lemma NarrowLayout(x: Input, limit: nat)
    requires Fits(x) && limit == Limit(x) == 0x0010_0000 && Align16(limit - x.bargs) == 48 && Align16(48 - x.bd) == 32
    requires InitrdAt(x, 0x0010_0000, 32) == 0x0010_0000 && x.len <= Top(x) && AlignPage(Top(x) - x.len) == 0x000F_F000
    ensures Placement(x) == Layout(0x0010_0000, 48, 32, 0x0010_0000) && !FitsHigh(x, limit)
  {}

  lemma NarrowSound(x: Input, p: Layout)
    requires x == Input(0xFFFF_FFFF, 0x0010_0000, 0xF_FFD0, 16, 0xFFFF_FFFF, 0xFFEF_F7FF)
    requires p == Layout(0x0010_0000, 48, 32, 0x0010_0000)
    ensures Sound(x, p)
  {}

  lemma NarrowAreas(x: Input)
    requires x == Input(0xFFFF_FFFF, 0x0010_0000, 0xF_FFD0, 16, 0xFFFF_FFFF, 0xFFEF_F7FF)
    ensures Fits(x) && Limit(x) == 0x0010_0000
    ensures Align16(Limit(x) - x.bargs) == 48 && Align16(48 - x.bd) == 32
  {
    assert Align16(0x0010_0000) == 0x0010_0000;
  }

  lemma NarrowHigh(x: Input)
    requires x == Input(0xFFFF_FFFF, 0x0010_0000, 0xF_FFD0, 16, 0xFFFF_FFFF, 0xFFEF_F7FF)
    ensures Top(x) == 0xFFFF_F7F0 && AlignPage(Top(x) - x.len) == 0x000F_F000
    ensures InitrdAt(x, 0x0010_0000, 32) == 0x0010_0000
  {
    assert Align16(0xFFFF_F7FF) == 0xFFFF_F7F0;
    assert Top(x) - x.len == 0x000F_FFF1;
    assert AlignPage(0x000F_FFF1) == 0x000F_F000;
    assert Sub(32, x.len) == 0x0010_0821;
    assert AlignPage(0x0010_0821) == 0x0010_0000;
  }
}
