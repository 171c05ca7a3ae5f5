/** Multi-file images: the layout of the README, the part search of common/cmd_ximg.c and the
    offsets that common/cmd_bootm.c computes for the kernel, the RAM disk and the device tree.
    Offsets count from the start of the image data. */
module MultiImage {

  type byte = b: int | 0 <= b < 256

  const W := 0x1_0000_0000

  /** A word in network byte order. */
  function Big(v: nat): (r: seq<byte>)
    requires v < W
    ensures |r| == 4
  {
    [v / 0x100_0000, v / 0x1_0000 % 256, v / 0x100 % 256, v % 256]
  }

  /** ntohl of the word at an offset. */
  function WordAt(blob: seq<byte>, o: nat): nat
    requires o + 4 <= |blob|
  {
    var a: int, b: int, c: int, d: int := blob[o], blob[o + 1], blob[o + 2], blob[o + 3];
    a * 0x100_0000 + b * 0x1_0000 + c * 0x100 + d
  }

  function Round4(n: nat): (r: nat)
    ensures n <= r < n + 4 && r % 4 == 0
  {
    if n % 4 == 0 then n else n + 4 - n % 4
  }

  function Padded(image: seq<byte>): (r: seq<byte>)
    ensures |r| == Round4(|image|) && r[..|image|] == image
  {
    image + seq(Round4(|image|) - |image|, i => 0)
  }

  predicate NonEmpty(images: seq<seq<byte>>) {
    forall i :: 0 <= i < |images| ==> 0 < |images[i]| < W
  }

  function Table(images: seq<seq<byte>>): (r: seq<byte>)
    requires NonEmpty(images)
    ensures |r| == 4 * |images|
  {
    if images == [] then [] else Big(|images[0]|) + Table(images[1..])
  }

  function Bodies(images: seq<seq<byte>>): seq<byte> {
    if images == [] then [] else Padded(images[0]) + Bodies(images[1..])
  }

  /** The list of sizes, the terminating zero, and the images on word boundaries. */
  function Pack(images: seq<seq<byte>>): seq<byte>
    requires NonEmpty(images)
  {
    Table(images) + Big(0) + Bodies(images)
  }

  /** The padded length of the images before a part. */
  function Skipped(images: seq<seq<byte>>, part: nat): nat
    requires part <= |images|
  {
    if part == 0 then 0 else Skipped(images, part - 1) + Round4(|images[part - 1]|)
  }

  function PartOffset(images: seq<seq<byte>>, part: nat): nat
    requires part <= |images|
  {
    4 * (|images| + 1) + Skipped(images, part)
  }

  predicate Prefix(a: seq<byte>, b: seq<byte>) { |a| <= |b| && b[..|a|] == a }

  lemma Digits(v: nat)
    ensures v / 0x100_0000 * 0x100_0000 + v / 0x1_0000 % 256 * 0x1_0000 + v / 0x100 % 256 * 0x100 + v % 256 == v
  {
    assert v / 0x100 / 0x100 == v / 0x1_0000 && v / 0x1_0000 / 0x100 == v / 0x100_0000;
  }

  lemma BigWord(v: nat, rest: seq<byte>)
    requires v < W
    ensures WordAt(Big(v) + rest, 0) == v
  {
    Digits(v);
    var s := Big(v) + rest;
    assert s[0] == Big(v)[0] && s[1] == Big(v)[1] && s[2] == Big(v)[2] && s[3] == Big(v)[3];
  }

  lemma WordSuffix(a: seq<byte>, b: seq<byte>, o: nat)
    requires |a| <= o && o + 4 <= |a| + |b|
    ensures WordAt(a + b, o) == WordAt(b, o - |a|)
  {}

  /** The i-th word of the table is the size of the i-th image. */
  lemma {:induction false} TableWord(images: seq<seq<byte>>, rest: seq<byte>, i: nat)
    requires NonEmpty(images) && i < |images|
    ensures WordAt(Table(images) + rest, 4 * i) == |images[i]|
    decreases |images|
  {
    var head, tail := Big(|images[0]|), Table(images[1..]) + rest;
    assert Table(images) + rest == head + tail;
    if i == 0 {
      BigWord(|images[0]|, tail);
    } else {
      WordSuffix(head, tail, 4 * i);
      TableWord(images[1..], rest, i - 1);
    }
  }

  /** The word of a packed image at an index of its table. */
  lemma {:induction false} PackedWord(images: seq<seq<byte>>, blob: seq<byte>, i: nat)
    requires NonEmpty(images) && Prefix(Pack(images), blob) && i <= |images|
    ensures 4 * i + 4 <= |blob| && WordAt(blob, 4 * i) == if i < |images| then |images[i]| else 0
  {
    var rest := Big(0) + Bodies(images) + blob[|Pack(images)|..];
    assert blob == Table(images) + rest;
    if i < |images| {
      TableWord(images, rest, i);
    } else {
      WordSuffix(Table(images), rest, 4 * i);
      var more := Bodies(images) + blob[|Pack(images)|..];
      assert rest == Big(0) + more;
      BigWord(0, more);
    }
  }

  lemma {:induction false} BodyAt(images: seq<seq<byte>>, part: nat)
    requires part < |images|
    ensures Skipped(images, part) + |images[part]| <= |Bodies(images)|
    ensures Bodies(images)[Skipped(images, part)..Skipped(images, part) + |images[part]|] == images[part]
    decreases |images|
  {
    if part > 0 {
      BodyAt(images[1..], part - 1);
      SkippedTail(images, part);
      SliceBehind(Padded(images[0]), Bodies(images[1..]), Skipped(images[1..], part - 1), |images[part]|);
    }
  }

  lemma SliceBehind(p: seq<byte>, r: seq<byte>, s: nat, n: nat)
    requires s + n <= |r|
    ensures (p + r)[|p| + s..|p| + s + n] == r[s..s + n]
  {}

  lemma {:induction false} SkippedTail(images: seq<seq<byte>>, part: nat)
    requires 0 < part <= |images|
    ensures Skipped(images, part) == Round4(|images[0]|) + Skipped(images[1..], part - 1)
    decreases part
  {
    if part > 1 {
      SkippedTail(images, part - 1);
    }
  }

  /** The bytes of a part lie at its offset. */
  lemma {:induction false} PartBytes(images: seq<seq<byte>>, blob: seq<byte>, part: nat)
    requires NonEmpty(images) && Prefix(Pack(images), blob) && part < |images|
    ensures var o := PartOffset(images, part);
      o + |images[part]| <= |blob| && blob[o..o + |images[part]|] == images[part]
  {
    BodyAt(images, part);
    var h, b, o, n := Table(images) + Big(0), Bodies(images), Skipped(images, part), |images[part]|;
    assert Pack(images) == h + b;
    SliceOf(h, b, blob, o, n);
  }

  lemma SliceOf(h: seq<byte>, b: seq<byte>, blob: seq<byte>, o: nat, n: nat)
    requires Prefix(h + b, blob) && o + n <= |b|
    ensures |h| + o + n <= |blob| && blob[|h| + o..|h| + o + n] == b[o..o + n]
  {
    var s := h + b;
    var x, y := blob[|h| + o..|h| + o + n], b[o..o + n];
    forall i | 0 <= i < n ensures x[i] == y[i] {
      assert blob[..|s|][|h| + o + i] == s[|h| + o + i] == b[o + i];
    }
  }

  // ---------------------------------------------------------------- the code

  /** The loop of do_imgextract over the table: the number of parts and the offset reached. */
  method Locate(blob: seq<byte>, hasPart: bool, part: nat, ghost images: seq<seq<byte>>) returns (n: nat, data: nat)
    requires NonEmpty(images) && Prefix(Pack(images), blob) && (hasPart || part == 0)
    ensures n == |images| && data == PartOffset(images, if part < n then part else n)
  {
    data := 4;
    n := 0;
    PackedWord(images, blob, 0);
    while WordAt(blob, 4 * n) != 0
      invariant n <= |images| && 4 * n + 4 <= |blob|
      invariant WordAt(blob, 4 * n) == if n < |images| then |images[n]| else 0
      invariant data == 4 + 4 * n + Skipped(images, if part < n then part else n)
      decreases |images| - n
    {
      data := data + 4;
      if hasPart && part > n {
        data := AddAligned(data, WordAt(blob, 4 * n));
      }
      n := n + 1;
      PackedWord(images, blob, n);
    }
  }

  /** do_imgextract: the part's offset and length, or an error for a part that is not there.
      Without a part argument the first image is taken. */
  method ImgExtract(blob: seq<byte>, hasPart: bool, arg: nat, ghost images: seq<seq<byte>>)
    returns (ok: bool, data: nat, len: nat)
    requires NonEmpty(images) && Prefix(Pack(images), blob)
    ensures ok <==> !hasPart || arg < |images|
    ensures ok && images == [] ==> len == 0
    ensures ok && images != [] ==> var part := if hasPart then arg else 0;
      len == |images[part]| && data + len <= |blob| && blob[data..data + len] == images[part] && data == PartOffset(images, part)
  {
    var part := if hasPart then arg else 0;
    var i: nat;
    i, data := Locate(blob, hasPart, part, images);
    if hasPart && part >= i {
      return false, 0, 0;
    }
    PackedWord(images, blob, part);
    if part < i {
      PartBytes(images, blob, part);
    }
    return true, data, WordAt(blob, 4 * part);
  }

  /** The count of table words from an index to the terminator, as bootm adds them up. */
  method SkipTable(blob: seq<byte>, from: nat, start: nat, ghost images: seq<seq<byte>>) returns (data: nat)
    requires NonEmpty(images) && Prefix(Pack(images), blob) && from <= |images|
    ensures data == start + 4 * (|images| - from)
  {
    data := start;
    var i := from;
    PackedWord(images, blob, i);
    while WordAt(blob, 4 * i) != 0
      invariant from <= i <= |images| && 4 * i + 4 <= |blob|
      invariant WordAt(blob, 4 * i) == if i < |images| then |images[i]| else 0
      invariant data == start + 4 * (i - from)
      decreases |images| - i
    {
      data := data + 4;
      i := i + 1;
      PackedWord(images, blob, i);
    }
  }

  /** Adding a length and aligning. */
  method AddAligned(data: nat, len: nat) returns (r: nat)
    ensures r == data + Round4(len)
  {
    var tail := len % 4;
    r := data + len;
    if tail != 0 {
      r := r + 4 - tail;
    }
  }

  /** The kernel is part 0. */
  method KernelData(blob: seq<byte>, ghost images: seq<seq<byte>>) returns (data: nat, len: nat)
    requires NonEmpty(images) && Prefix(Pack(images), blob) && images != []
    ensures data == PartOffset(images, 0) && len == |images[0]|
  {
    PackedWord(images, blob, 0);
    len := WordAt(blob, 0);
    data := SkipTable(blob, 1, 8, images);
  }

  /** The RAM disk is part 1, if there is one. */
  method InitrdData(blob: seq<byte>, ghost images: seq<seq<byte>>) returns (data: nat, len: nat)
    requires NonEmpty(images) && Prefix(Pack(images), blob) && images != []
    ensures |images| > 1 ==> data == PartOffset(images, 1) && len == |images[1]|
    ensures |images| == 1 ==> data == 0 && len == 0
  {
    PackedWord(images, blob, 0);
    PackedWord(images, blob, 1);
    if WordAt(blob, 4) == 0 {
      return 0, 0;
    }
    len := WordAt(blob, 4);
    data := SkipTable(blob, 1, 8, images);
    data := AddAligned(data, WordAt(blob, 0));
    assert Skipped(images, 1) == Skipped(images, 0) + Round4(|images[0]|);
  }

  const OF_DT_HEADER := 0xd00d_feed

  datatype Tree = NoTree | NotATree | WrongSize | TreeAt(data: nat)

  /** What a device tree must begin with: its mark and its size. */
  function TreeCheck(magic: nat, total: nat, size: nat, data: nat): Tree {
    if magic != OF_DT_HEADER then NotATree else if total != size then WrongSize else TreeAt(data)
  }

  /** The offset of part 2, if there is one. */
  method FindTree(blob: seq<byte>, ghost images: seq<seq<byte>>) returns (found: bool, data: nat, size: nat)
    requires NonEmpty(images) && Prefix(Pack(images), blob) && images != []
    ensures found <==> |images| > 2
    ensures found ==> data == PartOffset(images, 2) && size == |images[2]|
  {
    PackedWord(images, blob, 0);
    PackedWord(images, blob, 1);
    if WordAt(blob, 4) == 0 {
      return false, 0, 0;
    }
    PackedWord(images, blob, 2);
    if WordAt(blob, 8) == 0 {
      return false, 0, 0;
    }
    data := SkipTable(blob, 2, 12, images);
    data := AddAligned(data, WordAt(blob, 0));
    data := AddAligned(data, WordAt(blob, 4));
    assert Skipped(images, 1) == Skipped(images, 0) + Round4(|images[0]|);
    assert Skipped(images, 2) == Skipped(images, 1) + Round4(|images[1]|);
    size := WordAt(blob, 8);
    found := true;
  }

  /** The device tree is part 2, if there is one that begins as a tree of its own size; the
      two words that are read must be readable. */
  method TreeData(blob: seq<byte>, ghost images: seq<seq<byte>>) returns (r: Tree)
    requires NonEmpty(images) && Prefix(Pack(images), blob) && images != []
    requires |images| > 2 ==> PartOffset(images, 2) + 8 <= |blob|
    ensures r.NoTree? <==> |images| <= 2
    ensures r.TreeAt? ==> r.data == PartOffset(images, 2)
    ensures |images| > 2 && |images[2]| >= 8 ==>
      var t := images[2];
      r == if t[..4] != [0xD0, 0x0D, 0xFE, 0xED] then NotATree
           else if t[4] as int * 0x100_0000 + t[5] as int * 0x1_0000 + t[6] as int * 0x100 + t[7] != |t| then WrongSize
           else TreeAt(PartOffset(images, 2))
  {
    var found, data, size := FindTree(blob, images);
    if !found {
      return NoTree;
    }
    r := CheckTree(blob, data, size);
    TreeWords(images, blob, data, size);
    if size >= 8 {
      TreeBytes(images[2], data);
    }
  }

  /** The two words of a tree in bytes. */
  lemma TreeBytes(t: seq<byte>, data: nat)
    requires |t| >= 8
    ensures TreeCheck(WordAt(t, 0), WordAt(t, 4), |t|, data) ==
      if t[..4] != [0xD0, 0x0D, 0xFE, 0xED] then NotATree
      else if t[4] as int * 0x100_0000 + t[5] as int * 0x1_0000 + t[6] as int * 0x100 + t[7] != |t| then WrongSize
      else TreeAt(data)
  {
    MarkBytes(t[0], t[1], t[2], t[3]);
    assert t[..4] == [t[0], t[1], t[2], t[3]];
  }

  lemma MarkBytes(a: byte, b: byte, c: byte, d: byte)
    ensures a as int * 0x100_0000 + b as int * 0x1_0000 + c as int * 0x100 + d == OF_DT_HEADER <==>
      a == 0xD0 && b == 0x0D && c == 0xFE && d == 0xED
  {}

  /** The two tests on the words at the offset. */
  method CheckTree(blob: seq<byte>, data: nat, size: nat) returns (r: Tree)
    requires data + 8 <= |blob|
    ensures r == TreeCheck(WordAt(blob, data), WordAt(blob, data + 4), size, data)
  {
    if WordAt(blob, data) != OF_DT_HEADER {
      return NotATree;
    }
    if WordAt(blob, data + 4) != size {
      return WrongSize;
    }
    return TreeAt(data);
  }

  lemma {:induction false} TreeWords(images: seq<seq<byte>>, blob: seq<byte>, o: nat, n: nat)
    requires NonEmpty(images) && Prefix(Pack(images), blob) && |images| > 2
    requires o == PartOffset(images, 2) && n == |images[2]| && o + 8 <= |blob|
    ensures n >= 8 ==>
      TreeCheck(WordAt(blob, o), WordAt(blob, o + 4), n, o) == TreeCheck(WordAt(images[2], 0), WordAt(images[2], 4), n, o)
  {
    PartBytes(images, blob, 2);
    if n >= 8 {
      SliceWord(blob, o, n, 0);
      SliceWord(blob, o, n, 4);
    }
  }

  lemma SliceWord(blob: seq<byte>, o: nat, n: nat, k: nat)
    requires k + 4 <= n && o + n <= |blob|
    ensures WordAt(blob[o..o + n], k) == WordAt(blob, o + k)
  {}
}
