/** `createFaviconIco`, from the point where the PNG payloads are in hand: the
    6-byte ICONDIR header, one 16-byte little-endian directory entry per image with
    running offsets, and the image bytes copied verbatim, all into one byte buffer. */
module FaviconIco {

  type byte = b: int | 0 <= b < 256

  const HeaderSize: nat := 6
  const EntrySize: nat := 16

  // ---------------------------------------------------------------------------
  // little-endian integers (`DataView.setUint16` / `setUint32` with `true`)

  function Pow256(n: nat): (p: nat)
    ensures p > 0
  {
    if n == 0 then 1 else 256 * Pow256(n - 1)
  }

  /** The `width` low-order bytes of `v`, least significant first; higher bits are
      dropped as a `Uint16`/`Uint32` store drops them. */
  function EncodeLE(v: nat, width: nat): (r: seq<byte>)
    ensures |r| == width
  {
    if width == 0 then [] else [v % 256] + EncodeLE(v / 256, width - 1)
  }

  /** Reading little-endian bytes back as an unsigned integer. */
  function DecodeLE(bs: seq<byte>): nat {
    if bs == [] then 0 else bs[0] + 256 * DecodeLE(bs[1..])
  }

  /** `v == d * q + r` with `0 <= r < d` determines `v % d`. */
  lemma ModUnique(v: nat, d: nat, q: nat, r: nat)
    requires 0 <= r < d && v == d * q + r
    ensures v % d == r
  {
    var q0 := v / d;
    assert v == d * q0 + v % d;
    if q0 < q {
      MulStep(d, q0, q);
    } else if q < q0 {
      MulStep(d, q, q0);
    }
  }

  lemma {:induction false} MulStep(d: nat, a: nat, b: nat)
    requires a < b
    ensures d * a + d <= d * b
    decreases b - a
  {
    assert d * (a + 1) == d * a + d;
    if a + 1 < b {
      MulStep(d, a + 1, b);
    }
  }

  lemma DivMod256(v: nat, p: nat)
    requires p > 0
    ensures v % (256 * p) == v % 256 + 256 * ((v / 256) % p)
  {
    var q := v / 256;
    var r := v % 256;
    var q2 := q / p;
    var r2 := q % p;
    var m := 256 * r2 + r;
    assert v == 256 * q + r;
    assert q == p * q2 + r2;
    assert v == (256 * p) * q2 + m by {
      assert 256 * q == 256 * (p * q2) + 256 * r2;
      assert 256 * (p * q2) == (256 * p) * q2;
    }
    assert m < 256 * p by {
      assert 256 * r2 <= 256 * (p - 1);
    }
    ModUnique(v, 256 * p, q2, m);
  }

  /** Decoding an encoding gives the value modulo the width's range. */
  lemma {:induction false} DecodeEncode(v: nat, width: nat)
    ensures DecodeLE(EncodeLE(v, width)) == v % Pow256(width)
  {
    if width > 0 {
      var e := EncodeLE(v, width);
      assert e[1..] == EncodeLE(v / 256, width - 1);
      DecodeEncode(v / 256, width - 1);
      DivMod256(v, Pow256(width - 1));
    }
  }

  function U16(v: nat): (r: seq<byte>)
    ensures |r| == 2
  {
    EncodeLE(v, 2)
  }

  function U32(v: nat): (r: seq<byte>)
    ensures |r| == 4
  {
    EncodeLE(v, 4)
  }

  /** `view.getUint16(at, true)`. */
  function ReadUint16(bs: seq<byte>, at: nat): nat
    requires at + 2 <= |bs|
  {
    bs[at] as int + 256 * bs[at + 1] as int
  }

  /** `view.getUint32(at, true)`. */
  function ReadUint32(bs: seq<byte>, at: nat): nat
    requires at + 4 <= |bs|
  {
    bs[at] as int + 256 * bs[at + 1] as int + 0x1_0000 * bs[at + 2] as int
      + 0x100_0000 * bs[at + 3] as int
  }

  /** A 16-bit field written with `U16` reads back as the value modulo 2^16. */
  lemma U16Value(bs: seq<byte>, at: nat, v: nat)
    requires at + 2 <= |bs| && bs[at..at + 2] == U16(v)
    ensures ReadUint16(bs, at) == v % 0x1_0000
  {
    var w := U16(v);
    DecodeEncode(v, 2);
    assert w[1..][1..] == [];
    assert bs[at] == w[0] && bs[at + 1] == w[1];
  }

  /** A 32-bit field written with `U32` reads back as the value modulo 2^32. */
  lemma U32Value(bs: seq<byte>, at: nat, v: nat)
    requires at + 4 <= |bs| && bs[at..at + 4] == U32(v)
    ensures ReadUint32(bs, at) == v % 0x1_0000_0000
  {
    var w := U32(v);
    DecodeEncode(v, 4);
    assert DecodeLE(w[3..]) == w[3] by {
      assert w[3..][1..] == [];
    }
    assert DecodeLE(w[2..]) == w[2] as int + 256 * w[3] as int by {
      assert w[2..][1..] == w[3..];
    }
    assert DecodeLE(w[1..]) == w[1] as int + 256 * w[2] as int + 0x1_0000 * w[3] as int by {
      assert w[1..][1..] == w[2..];
    }
    assert bs[at] == w[0] && bs[at + 1] == w[1] && bs[at + 2] == w[2] && bs[at + 3] == w[3];
  }

  // ---------------------------------------------------------------------------
  // the layout

  /** Concatenation of byte strings, in order. */
  function Concat<T>(xs: seq<seq<T>>): seq<T> {
    if xs == [] then [] else Concat(xs[..|xs| - 1]) + xs[|xs| - 1]
  }

  /** `images.reduce((s, i) => s + i.length, 0)`. */
  function SumLengths<T>(xs: seq<seq<T>>): nat {
    if xs == [] then 0 else SumLengths(xs[..|xs| - 1]) + |xs[|xs| - 1]|
  }

  /** `png[i]` read into a `Uint8Array`: past the end it is `undefined`, which the
      store turns into 0. */
  function ByteOrZero(png: seq<byte>, i: nat): byte {
    if i < |png| then png[i] else 0
  }

  /** The ICONDIR header for `n` images. */
  function Header(n: nat): seq<byte> {
    U16(0) + U16(1) + U16(n)
  }

  /** Where image `k` starts in the file. */
  function ImageOffset(pngs: seq<seq<byte>>, k: nat): nat
    requires k <= |pngs|
  {
    6 + 16 * |pngs| + SumLengths(pngs[..k])
  }

  /** The ICONDIRENTRY for an image starting at `offset`: width and height from the
      PNG's IHDR chunk, no palette, reserved 0, one plane, 32 bits per pixel, the
      image size and its offset. */
  function Entry(png: seq<byte>, offset: nat): seq<byte> {
    [ByteOrZero(png, 16), ByteOrZero(png, 20), 0, 0] + U16(1) + U16(32) + U32(|png|) + U32(offset)
  }

  function Entries(pngs: seq<seq<byte>>): (es: seq<seq<byte>>)
    ensures |es| == |pngs|
  {
    seq(|pngs|, k requires 0 <= k < |pngs| => Entry(pngs[k], ImageOffset(pngs, k)))
  }

  /** The whole `.ico` file. */
  function IcoFile(pngs: seq<seq<byte>>): seq<byte> {
    Header(|pngs|) + Concat(Entries(pngs)) + Concat(pngs)
  }

  // ---------------------------------------------------------------------------
  // the packer

  /** `view.setUint16(at, v, true)`. */
  method SetUint16(a: array<byte>, at: nat, v: nat)
    requires at + 2 <= a.Length
    modifies a
    ensures a[..] == old(a[..])[..at] + U16(v) + old(a[..])[at + 2..]
  {
    var e := U16(v);
    a[at] := e[0];
    a[at + 1] := e[1];
  }

  /** `view.setUint32(at, v, true)`. */
  method SetUint32(a: array<byte>, at: nat, v: nat)
    requires at + 4 <= a.Length
    modifies a
    ensures a[..] == old(a[..])[..at] + U32(v) + old(a[..])[at + 4..]
  {
    var e := U32(v);
    a[at] := e[0];
    a[at + 1] := e[1];
    a[at + 2] := e[2];
    a[at + 3] := e[3];
  }

  /** `a.set(src, at)`. */
  method SetBytes(a: array<byte>, src: seq<byte>, at: nat)
    requires at + |src| <= a.Length
    modifies a
    ensures a[..] == old(a[..])[..at] + src + old(a[..])[at + |src|..]
    ensures a[..at + |src|] == old(a[..at]) + src
  {
    var k := 0;
    while k < |src|
      invariant 0 <= k <= |src|
      invariant forall i | 0 <= i < a.Length ::
        a[i] == (if at <= i < at + k then src[i - at] else old(a[i]))
    {
      a[at + k] := src[k];
      k := k + 1;
    }
    assert forall i | 0 <= i < a.Length ::
      a[i] == (old(a[..])[..at] + src + old(a[..])[at + |src|..])[i];
  }

  /** One directory entry, written field by field into a fresh 16-byte buffer. */
  method MakeEntry(png: seq<byte>, offset: nat) returns (entry: array<byte>)
    ensures entry[..] == Entry(png, offset)
  {
    entry := new byte[EntrySize];
    entry[0] := ByteOrZero(png, 16);
    entry[1] := ByteOrZero(png, 20);
    entry[2] := 0;
    entry[3] := 0;
    SetUint16(entry, 4, 1);
    SetUint16(entry, 6, 32);
    SetUint32(entry, 8, |png|);
    SetUint32(entry, 12, offset);
    assert entry[..] == Entry(png, offset);
  }

  /** The ICONDIR header written into a fresh 6-byte buffer. */
  method MakeHeader(n: nat) returns (iconDir: array<byte>)
    ensures iconDir[..] == Header(n)
  {
    iconDir := new byte[HeaderSize];
    SetUint16(iconDir, 0, 0);
    SetUint16(iconDir, 2, 1);
    SetUint16(iconDir, 4, n);
  }

  /** The first loop of `createFaviconIco`: one entry per image, the running offset
      starting right after the directory and advancing by each image's length. */
  method MakeEntries(pngs: seq<seq<byte>>) returns (entries: seq<seq<byte>>, images: seq<seq<byte>>)
    ensures entries == Entries(pngs) && images == pngs
  {
    var offset := 6 + 16 * |pngs|;
    entries := [];
    images := [];
    var i := 0;
    while i < |pngs|
      invariant 0 <= i <= |pngs|
      invariant offset == ImageOffset(pngs, i)
      invariant entries == Entries(pngs)[..i]
      invariant images == pngs[..i]
    {
      var png := pngs[i];
      var entry := MakeEntry(png, offset);
      offset := offset + |png|;
      SumLengthsSnoc(pngs, i);
      entries := entries + [entry[..]];
      images := images + [png];
      i := i + 1;
    }
  }

  /** `createFaviconIco` after the fetches: the packed file. */
  method CreateFaviconIco(pngs: seq<seq<byte>>) returns (result: array<byte>)
    ensures result[..] == IcoFile(pngs)
  {
    var iconDir := MakeHeader(|pngs|);
    var header := iconDir[..];
    var entries, images := MakeEntries(pngs);
    var totalSize := 6 + 16 * |entries| + SumLengths(images);
    EntriesLength(pngs);
    result := new byte[totalSize];
    SetBytes(result, header, 0);
    assert result[..HeaderSize] == Header(|pngs|);
    var pos := SetAll(result, entries, HeaderSize);
    assert result[..pos] == Header(|pngs|) + Concat(entries);
    pos := SetAll(result, images, pos);
    assert result[..pos] == IcoFile(pngs);
    assert result[..] == result[..pos];
  }

  /** The `for (...) { result.set(x, pos); pos += x.length; }` loops: the pieces
      copied one after another from `at`. */
  method SetAll(a: array<byte>, pieces: seq<seq<byte>>, at: nat) returns (pos: nat)
    requires at + SumLengths(pieces) <= a.Length
    modifies a
    ensures pos == at + SumLengths(pieces)
    ensures a[..pos] == old(a[..at]) + Concat(pieces)
  {
    pos := at;
    var j := 0;
    while j < |pieces|
      invariant 0 <= j <= |pieces|
      invariant pos == at + SumLengths(pieces[..j]) <= at + SumLengths(pieces)
      invariant a[..pos] == old(a[..at]) + Concat(pieces[..j])
    {
      SumLengthsPrefix(pieces, j + 1);
      SumLengthsSnoc(pieces, j);
      SetBytes(a, pieces[j], pos);
      ConcatSnoc(pieces, j);
      pos := pos + |pieces[j]|;
      j := j + 1;
    }
    assert pieces[..j] == pieces;
  }

  // ---------------------------------------------------------------------------
  // lemmas about the layout

  lemma ConcatSnoc<T>(xs: seq<seq<T>>, j: nat)
    requires j < |xs|
    ensures Concat(xs[..j + 1]) == Concat(xs[..j]) + xs[j]
  {
    assert xs[..j + 1][..j] == xs[..j];
  }

  lemma SumLengthsSnoc<T>(xs: seq<seq<T>>, j: nat)
    requires j < |xs|
    ensures SumLengths(xs[..j + 1]) == SumLengths(xs[..j]) + |xs[j]|
  {
    assert xs[..j + 1][..j] == xs[..j];
  }

  /** The sum of the lengths is the length of the concatenation. */
  lemma {:induction false} ConcatLength<T>(xs: seq<seq<T>>)
    ensures |Concat(xs)| == SumLengths(xs)
    decreases |xs|
  {
    if xs != [] {
      ConcatLength(xs[..|xs| - 1]);
    }
  }

  /** Each entry is 16 bytes, so the entries take `16 * n` bytes. */
  lemma EntriesLength(pngs: seq<seq<byte>>)
    ensures SumLengths(Entries(pngs)) == 16 * |pngs|
  {
    var es := Entries(pngs);
    FixedSizeSum(es, |pngs|);
    assert es[..|pngs|] == es;
  }

  lemma {:induction false} FixedSizeSum<T>(xs: seq<seq<T>>, n: nat)
    requires n <= |xs| && forall i | 0 <= i < |xs| :: |xs[i]| == EntrySize
    ensures SumLengths(xs[..n]) == 16 * n
  {
    if n > 0 {
      FixedSizeSum(xs, n - 1);
      SumLengthsSnoc(xs, n - 1);
    }
  }

  lemma SumLengthsPrefix<T>(xs: seq<seq<T>>, k: nat)
    requires k <= |xs|
    ensures SumLengths(xs[..k]) <= SumLengths(xs)
  {
    ConcatPrefix(xs, k);
    ConcatLength(xs);
  }

  /** A prefix of the pieces concatenates to a prefix of the whole. */
  lemma {:induction false} ConcatPrefix<T>(xs: seq<seq<T>>, k: nat)
    requires k <= |xs|
    ensures SumLengths(xs[..k]) <= |Concat(xs)|
    ensures Concat(xs)[..SumLengths(xs[..k])] == Concat(xs[..k])
    decreases |xs|
  {
    ConcatLength(xs);
    ConcatLength(xs[..k]);
    if k < |xs| {
      var init := xs[..|xs| - 1];
      assert init[..k] == xs[..k];
      ConcatPrefix(init, k);
      ConcatLength(init);
    } else {
      assert xs[..k] == xs;
    }
  }

  /** Piece `k` sits in the concatenation right after the pieces before it. */
  lemma PieceAt<T>(xs: seq<seq<T>>, k: nat)
    requires k < |xs|
    ensures SumLengths(xs[..k]) + |xs[k]| <= |Concat(xs)|
    ensures Concat(xs)[SumLengths(xs[..k])..SumLengths(xs[..k]) + |xs[k]|] == xs[k]
  {
    ConcatPrefix(xs, k + 1);
    ConcatSnoc(xs, k);
    SumLengthsSnoc(xs, k);
    ConcatLength(xs[..k]);
    var a := SumLengths(xs[..k]);
    assert Concat(xs)[a..a + |xs[k]|] == Concat(xs)[..a + |xs[k]|][a..];
  }

  /** A slice that falls inside the middle part of `a + b + c`. */
  lemma MiddleSlice<T>(a: seq<T>, b: seq<T>, c: seq<T>, lo: nat, hi: nat)
    requires |a| <= lo <= hi <= |a| + |b|
    ensures (a + b + c)[lo..hi] == b[lo - |a|..hi - |a|]
  {
  }

  /** The file is `6 + 16*n + sum of image lengths` bytes long. */
  lemma IcoLength(pngs: seq<seq<byte>>)
    ensures |IcoFile(pngs)| == 6 + 16 * |pngs| + SumLengths(pngs)
  {
    EntriesLength(pngs);
    ConcatLength(Entries(pngs));
    ConcatLength(pngs);
  }

  /** The header: reserved 0, type 1 (icon), and the image count modulo 2^16. */
  lemma IcoHeader(pngs: seq<seq<byte>>)
    ensures |IcoFile(pngs)| >= 6
    ensures ReadUint16(IcoFile(pngs), 0) == 0 && ReadUint16(IcoFile(pngs), 2) == 1
    ensures ReadUint16(IcoFile(pngs), 4) == |pngs| % 0x1_0000
  {
    var f := IcoFile(pngs);
    assert f[0..2] == U16(0) && f[2..4] == U16(1) && f[4..6] == U16(|pngs|);
    U16Value(f, 0, 0);
    U16Value(f, 2, 1);
    U16Value(f, 4, |pngs|);
  }

  /** Entry `k` is the 16 bytes at `6 + 16*k`. */
  lemma EntryAt(pngs: seq<seq<byte>>, k: nat)
    requires k < |pngs|
    ensures 6 + 16 * (k + 1) <= |IcoFile(pngs)|
    ensures IcoFile(pngs)[6 + 16 * k..6 + 16 * (k + 1)] == Entries(pngs)[k]
  {
    var es := Entries(pngs);
    var c := Concat(es);
    assert 16 * (k + 1) <= |c| && c[16 * k..16 * (k + 1)] == es[k] by {
      PieceAt(es, k);
      FixedSizeSum(es, k);
    }
    MiddleSlice(Header(|pngs|), c, Concat(pngs), 6 + 16 * k, 6 + 16 * (k + 1));
  }

  /** Image `k` is copied verbatim at its offset. */
  lemma ImageAt(pngs: seq<seq<byte>>, k: nat)
    requires k < |pngs|
    ensures ImageOffset(pngs, k) + |pngs[k]| <= |IcoFile(pngs)|
    ensures IcoFile(pngs)[ImageOffset(pngs, k)..ImageOffset(pngs, k) + |pngs[k]|] == pngs[k]
  {
    PieceAt(pngs, k);
    EntriesLength(pngs);
    ConcatLength(Entries(pngs));
    var b := 6 + 16 * |pngs|;
    var a := SumLengths(pngs[..k]);
    MiddleSlice(Header(|pngs|) + Concat(Entries(pngs)), Concat(pngs), [], b + a, b + a + |pngs[k]|);
    assert IcoFile(pngs) == Header(|pngs|) + Concat(Entries(pngs)) + Concat(pngs) + [];
  }

  /** The width and height bytes of an entry are the PNG's IHDR bytes 16 and 20
      (0 when the data is shorter): the `=== 256` branches never apply to a byte.
      Planes is 1 and the bit count 32. */
  lemma EntryDimensions(png: seq<byte>, offset: nat)
    ensures Entry(png, offset)[0] == (if 16 < |png| then png[16] else 0)
    ensures Entry(png, offset)[1] == (if 20 < |png| then png[20] else 0)
    ensures Entry(png, offset)[2] == 0 && Entry(png, offset)[3] == 0
    ensures ReadUint16(Entry(png, offset), 4) == 1 && ReadUint16(Entry(png, offset), 6) == 32
  {
    var e := Entry(png, offset);
    assert e[4..6] == U16(1) && e[6..8] == U16(32);
    U16Value(e, 4, 1);
    U16Value(e, 6, 32);
  }

  /** The size and offset fields of entry `k`, read in the file. */
  lemma EntryFieldsInFile(pngs: seq<seq<byte>>, k: nat)
    requires k < |pngs|
    ensures 6 + 16 * (k + 1) <= |IcoFile(pngs)|
    ensures ReadUint32(IcoFile(pngs), 6 + 16 * k + 8) == |pngs[k]| % 0x1_0000_0000
    ensures ReadUint32(IcoFile(pngs), 6 + 16 * k + 12) == ImageOffset(pngs, k) % 0x1_0000_0000
  {
    EntryAt(pngs, k);
    var entry := Entry(pngs[k], ImageOffset(pngs, k));
    EntryFields(pngs[k], ImageOffset(pngs, k));
    U32Value(entry, 8, |pngs[k]|);
    U32Value(entry, 12, ImageOffset(pngs, k));
    ReadInSlice(IcoFile(pngs), 6 + 16 * k, 16, 8);
    ReadInSlice(IcoFile(pngs), 6 + 16 * k, 16, 12);
  }

  lemma EntryFields(png: seq<byte>, offset: nat)
    ensures Entry(png, offset)[8..12] == U32(|png|)
    ensures Entry(png, offset)[12..16] == U32(offset)
  {
  }

  /** A field read inside a slice is the same field read in the whole. */
  lemma ReadInSlice(f: seq<byte>, e: nat, n: nat, at: nat)
    requires e + n <= |f| && at + 4 <= n
    ensures ReadUint32(f[e..e + n], at) == ReadUint32(f, e + at)
  {
    var w := f[e..e + n];
    assert w[at] == f[e + at] && w[at + 1] == f[e + at + 1];
    assert w[at + 2] == f[e + at + 2] && w[at + 3] == f[e + at + 3];
  }

  /** Reading entry `k`'s size and offset back out of the file finds exactly image
      `k`, as long as the file is small enough for its offsets to fit in 32 bits. */
  lemma ReadBackImage(pngs: seq<seq<byte>>, k: nat)
    requires k < |pngs|
    requires |IcoFile(pngs)| < 0x1_0000_0000
    ensures 6 + 16 * (k + 1) <= |IcoFile(pngs)|
    ensures var f := IcoFile(pngs);
      var size := ReadUint32(f, 6 + 16 * k + 8);
      var at := ReadUint32(f, 6 + 16 * k + 12);
      at + size <= |f| && f[at..at + size] == pngs[k]
  {
    EntryFieldsInFile(pngs, k);
    ImageAt(pngs, k);
    ModSmall(|pngs[k]|, 0x1_0000_0000);
    ModSmall(ImageOffset(pngs, k), 0x1_0000_0000);
  }

  lemma ModSmall(x: nat, m: nat)
    requires x < m
    ensures x % m == x
  {
  }
}
