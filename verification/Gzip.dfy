/** The gzip header skip of gunzip in common/cmd_bootm.c, against section 2.3 of RFC 1952. */
module Gzip {
  import opened Wrappers

  type byte = b: int | 0 <= b < 256

  /** A member header: FLG bits that carry no field, MTIME/XFL/OS bytes, and the fields. */
  datatype Header = Header(id1: byte, id2: byte, text: bool, rest: seq<byte>, extra: Option<seq<byte>>,
                           name: Option<seq<byte>>, comment: Option<seq<byte>>, crc: Option<seq<byte>>)

  /** The fields are as long as the format says, and the names hold no zero byte. */
  predicate WellFormed(h: Header) {
    |h.rest| == 6 && (h.extra.Some? ==> |h.extra.value| < 0x1_0000) &&
    (h.name.Some? ==> 0 !in h.name.value) && (h.comment.Some? ==> 0 !in h.comment.value) &&
    (h.crc.Some? ==> |h.crc.value| == 2)
  }

  function Flag(on: bool, value: nat): nat { if on then value else 0 }

  function Flags(h: Header): byte {
    Flag(h.text, 1) + Flag(h.crc.Some?, 2) + Flag(h.extra.Some?, 4) + Flag(h.name.Some?, 8) + Flag(h.comment.Some?, 16)
  }

  function ExtraBytes(h: Header): seq<byte>
    requires WellFormed(h)
  {
    match h.extra case None => [] case Some(x) => [|x| % 256, |x| / 256] + x
  }

  function Text(t: Option<seq<byte>>): seq<byte> { match t case None => [] case Some(x) => x + [0] }

  function CrcBytes(h: Header): seq<byte> { match h.crc case None => [] case Some(x) => x }

  /** The member header as the format lays it out. */
  function Encode(h: Header): seq<byte>
    requires WellFormed(h)
  {
    [h.id1, h.id2, 8, Flags(h)] + h.rest + ExtraBytes(h) + Text(h.name) + Text(h.comment) + CrcBytes(h)
  }

  /** A bit of the flag byte. */
  predicate Has(flags: byte, value: nat)
    requires value > 0
  {
    flags / value % 2 == 1
  }

  lemma FlagBits(h: Header)
    ensures Has(Flags(h), 2) == h.crc.Some? && Has(Flags(h), 4) == h.extra.Some?
    ensures Has(Flags(h), 8) == h.name.Some? && Has(Flags(h), 16) == h.comment.Some? && Flags(h) < 0x20
  {}

  /** The scan for a terminating zero: the index behind it. */
  method SkipText(src: seq<byte>, start: nat, ghost text: seq<byte>, ghost after: nat) returns (i: nat)
    requires 0 !in text && after == start + |text| + 1 <= |src| && src[start..after] == text + [0]
    ensures i == after
  {
    i := start;
    ghost var field := text + [0];
    while src[i] != 0
      invariant start <= i < after
      decreases after - i
    {
      assert src[i] == field[i - start];
      i := i + 1;
    }
    assert src[i] == field[i - start];
    assert forall k :: 0 <= k < |text| ==> field[k] == text[k] && text[k] in text;
    i := i + 1;
  }

  /** Where the parts of the header end. */
  function EndExtra(h: Header): nat
    requires WellFormed(h)
  {
    10 + |ExtraBytes(h)|
  }

  lemma {:induction false} Parts(h: Header, data: seq<byte>)
    requires WellFormed(h)
    ensures var src := Encode(h) + data; var e := EndExtra(h); var n := e + |Text(h.name)|; var c := n + |Text(h.comment)|;
      |Encode(h)| == c + |CrcBytes(h)| && src[2] == 8 && src[3] == Flags(h) && src[10..e] == ExtraBytes(h) &&
      src[e..n] == Text(h.name) && src[n..c] == Text(h.comment)
  {
    var a, x, t, u, v := [h.id1, h.id2, 8, Flags(h)] + h.rest, ExtraBytes(h), Text(h.name), Text(h.comment), CrcBytes(h);
    Slices(a, x, t, u, v, data);
    assert a[2] == 8 && a[3] == Flags(h);
  }

  lemma Slices(a: seq<byte>, x: seq<byte>, t: seq<byte>, u: seq<byte>, v: seq<byte>, d: seq<byte>)
    ensures var s := a + x + t + u + v + d;
      s[..|a|] == a && s[|a|..|a| + |x|] == x && s[|a| + |x|..|a| + |x| + |t|] == t &&
      s[|a| + |x| + |t|..|a| + |x| + |t| + |u|] == u
  {}

  /** gunzip up to the call of inflate. A method other than deflate or a reserved flag is an
      error; for a well-formed header the offset is that of the first byte behind it, and an
      error is reported exactly when nothing follows in the given length. */
  method SkipHeader(src: seq<byte>, len: nat, ghost h: Header, ghost data: seq<byte>) returns (r: Option<nat>)
    requires |src| >= 4
    requires src[2] == 8 && src[3] < 0x20 ==> WellFormed(h) && src == Encode(h) + data
    ensures src[2] != 8 || src[3] >= 0x20 ==> r == None
    ensures src[2] == 8 && src[3] < 0x20 ==> r == if |Encode(h)| >= len then None else Some(|Encode(h)|)
  {
    var i: nat := 10;
    var flags := src[3];
    if src[2] != 8 || flags / 0x20 != 0 {
      return None;
    }
    Parts(h, data);
    FlagBits(h);
    ghost var e := EndExtra(h);
    ghost var n := e + |Text(h.name)|;
    ghost var c := n + |Text(h.comment)|;
    if Has(flags, 4) {
      i := SkipExtra(src, h);
    }
    if Has(flags, 8) {
      i := SkipText(src, i, h.name.value, n);
    }
    if Has(flags, 16) {
      i := SkipText(src, i, h.comment.value, c);
    }
    if Has(flags, 2) {
      i := i + 2;
    }
    if i >= len {
      return None;
    }
    return Some(i);
  }

  /** The extra field: two length bytes, the low one first, and so many more. */
  method SkipExtra(src: seq<byte>, ghost h: Header) returns (i: nat)
    requires WellFormed(h) && h.extra.Some? && EndExtra(h) <= |src| && src[10..EndExtra(h)] == ExtraBytes(h)
    ensures i == EndExtra(h)
  {
    ghost var x := ExtraBytes(h);
    assert src[10] == x[0] && src[11] == x[1];
    var low: int, high: int := src[10], src[11];
    i := 12 + low + 256 * high;
  }
}
