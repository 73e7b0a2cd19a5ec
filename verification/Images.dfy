/** The image that mkpimage.c makes: header and checksum in place, CRC at the end. */
module Images {
  import opened Expressions
  import opened Crc

  const HEADER: nat := 0x40
  const MAX_IMAGE_SIZE: nat := 60 * 1024 - 4

  /** A word as the bytes of a little-endian machine. */
  function LittleEndian(w: Word): seq<Byte> {
    [(w & 0xff) as Byte, ((w >> 8) & 0xff) as Byte, ((w >> 16) & 0xff) as Byte, ((w >> 24) & 0xff) as Byte]
  }

  lemma LittleEndianIsInjective(a: Word, b: Word)
    requires LittleEndian(a) == LittleEndian(b)
    ensures a == b
  {
    var x, y := LittleEndian(a), LittleEndian(b);
    assert x[0] == y[0] && x[1] == y[1] && x[2] == y[2] && x[3] == y[3];
    SameBytes(a, b);
  }

  lemma SameBytes(a: Word, b: Word)
    requires (a & 0xff) as Byte == (b & 0xff) as Byte && ((a >> 8) & 0xff) as Byte == ((b >> 8) & 0xff) as Byte
    requires ((a >> 16) & 0xff) as Byte == ((b >> 16) & 0xff) as Byte && ((a >> 24) & 0xff) as Byte == ((b >> 24) & 0xff) as Byte
    ensures a == b
  {
  }

  /** The low two bytes of a number, low byte first. */
  function TwoBytes(n: nat): seq<Byte> {
    [(n % 256) as Byte, (n / 256 % 256) as Byte]
  }

  /** validation_word, version, flags, program_length and spare, for an image of `words` words. */
  function HeaderStart(words: nat): seq<Byte> {
    [0x41, 0x53, 0x30, 0x31, 0, 0] + TwoBytes(words) + [0, 0]
  }

  function Sum(bytes: seq<Byte>): nat {
    if bytes == [] then 0 else Sum(bytes[..|bytes| - 1]) + bytes[|bytes| - 1] as nat
  }

  /** struct socfpga_header */
  function Header(words: nat): seq<Byte> {
    HeaderStart(words) + TwoBytes(Sum(HeaderStart(words)))
  }

  function TrailerFor(body: seq<Byte>): seq<Byte> {
    LittleEndian(Xor(Crc32(0xffffffff, body), 0xffffffff))
  }

  /** What a loader checks: whole words, the header, and the CRC of everything before the CRC. */
  predicate ValidImage(image: seq<Byte>) {
    && |image| % 4 == 0 && |image| >= HEADER + 16
    && image[HEADER..HEADER + 12] == Header(|image| / 4)
    && image[|image| - 4..] == TrailerFor(image[..|image| - 4])
  }

  /** Low byte first. */
  lemma TwoBytesAre(n: nat)
    requires n < 0x10000
    ensures |TwoBytes(n)| == 2 && TwoBytes(n)[0] == (n % 256) as Byte && TwoBytes(n)[1] == (n / 256) as Byte
  {
    assert n / 256 % 256 == n / 256;
  }

  lemma {:induction false} SumBound(bytes: seq<Byte>)
    ensures Sum(bytes) <= 255 * |bytes|
  {
    if bytes != [] {
      SumBound(bytes[..|bytes| - 1]);
    }
  }

  /** The header field by field: the word 0x31305341, version and flags, the length in words, two spare
      bytes, and the sum of these ten bytes. */
  lemma HeaderFields(words: nat, h: seq<Byte>)
    requires words < 0x10000
    ensures h == Header(words) ==>
              && |h| == 12 && h[..4] == [0x41, 0x53, 0x30, 0x31] && h[4] == h[5] == h[8] == h[9] == 0
              && h[6] == (words % 256) as Byte && h[7] == (words / 256) as Byte
              && Sum(h[..10]) < 0x10000 && h[10] == (Sum(h[..10]) % 256) as Byte && h[11] == (Sum(h[..10]) / 256) as Byte
  {
    if h == Header(words) {
      var start := HeaderStart(words);
      TwoBytesAre(words);
      SumBound(start);
      TwoBytesAre(Sum(start));
      assert h[..10] == start;
    }
  }

  /** Damage to at most four consecutive bytes before the CRC makes an image invalid. */
  lemma DamageIsNoticed(before: seq<Byte>, x: seq<Byte>, y: seq<Byte>, after: seq<Byte>)
    requires |x| == |y| <= 4 && x != y && |after| >= 4
    requires ValidImage(before + x + after)
    ensures !ValidImage(before + y + after)
  {
    hide Crc32, Header, LittleEndian, Xor;
    var image, damaged := before + x + after, before + y + after;
    var rest := after[..|after| - 4];
    assert image[..|image| - 4] == before + x + rest && damaged[..|damaged| - 4] == before + y + rest;
    assert image[|image| - 4..] == after[|after| - 4..] == damaged[|damaged| - 4..];
    BurstIsDetected(0xffffffff, before, x, y, rest);
    if ValidImage(damaged) {
      var c, d := Crc32(0xffffffff, before + x + rest), Crc32(0xffffffff, before + y + rest);
      LittleEndianIsInjective(Xor(c, 0xffffffff), Xor(d, 0xffffffff));
      XorCancels(c, d, 0xffffffff);
    }
  }

  // ---------------------------------------------------------------- add_socfpga_header

  function Overwritten(s: seq<Byte>, at: nat, bytes: seq<Byte>): (r: seq<Byte>)
    requires at + |bytes| <= |s|
    ensures |r| == |s| && r[at..at + |bytes|] == bytes
  {
    s[..at] + bytes + s[at + |bytes|..]
  }

  /** Overwriting leaves the parts before and after alone. */
  lemma Elsewhere(s: seq<Byte>, at: nat, bytes: seq<Byte>, i: nat, j: nat)
    requires at + |bytes| <= |s| && i <= j <= |s| && (j <= at || at + |bytes| <= i)
    ensures Overwritten(s, at, bytes)[i..j] == s[i..j]
  {
  }

  method StoreBytes(buf: array<Byte>, at: nat, bytes: seq<Byte>)
    requires at + |bytes| <= buf.Length
    modifies buf
    ensures buf[..] == Overwritten(old(buf[..]), at, bytes)
  {
    ghost var s := buf[..];
    for i := 0 to |bytes|
      invariant buf[..] == s[..at] + bytes[..i] + s[at + i..]
    {
      buf[at + i] := bytes[i];
    }
  }

  method SumBytes(buf: array<Byte>, at: nat, n: nat) returns (checksum: nat)
    requires at + n <= buf.Length
    ensures checksum == Sum(buf[at..at + n])
  {
    checksum := 0;
    for i := 0 to n
      invariant checksum == Sum(buf[at..at + i])
    {
      assert buf[at..at + i + 1][..i] == buf[at..at + i];
      checksum := checksum + buf[at + i] as nat;
    }
  }

  /** The header with its checksum. */
  method StoreHeader(buf: array<Byte>)
    requires buf.Length >= HEADER + 12
    modifies buf
    ensures buf[..] == Overwritten(old(buf[..]), HEADER, Header(buf.Length / 4))
  {
    hide *;
    ghost var s0, words, start := buf[..], buf.Length / 4, HeaderStart(buf.Length / 4);
    HeaderLengths(words);
    StoreBytes(buf, HEADER, HeaderStart(buf.Length / 4));
    var checksum := SumBytes(buf, HEADER, 10);
    assert buf[HEADER..HEADER + 10] == buf[..][HEADER..HEADER + 10];
    TwoLengths(checksum);
    StoreBytes(buf, HEADER + 10, TwoBytes(checksum));
    TwoOverwrites(s0, HEADER, start, TwoBytes(checksum));
    HeaderParts(words);
  }

  lemma TwoOverwrites(s: seq<Byte>, at: nat, x: seq<Byte>, y: seq<Byte>)
    requires at + |x| + |y| <= |s|
    ensures Overwritten(Overwritten(s, at, x), at + |x|, y) == Overwritten(s, at, x + y)
  {
  }

  lemma HeaderParts(words: nat)
    ensures Header(words) == HeaderStart(words) + TwoBytes(Sum(HeaderStart(words)))
  {
  }

  /** The bytes after add_socfpga_header. */
  function WithHeader(s: seq<Byte>): (r: seq<Byte>)
    requires |s| >= HEADER + 16
    ensures |r| == |s|
  {
    HeaderLengths(|s| / 4);
    var h := Overwritten(s, HEADER, Header(|s| / 4));
    Overwritten(h, |s| - 4, TrailerFor(h[..|s| - 4]))
  }

  /** Header and trailer make the image valid, and nothing else changes. */
  lemma WithHeaderIsValid(s: seq<Byte>)
    requires |s| >= HEADER + 16 && |s| % 4 == 0
    ensures ValidImage(WithHeader(s))
    ensures WithHeader(s)[..HEADER] == s[..HEADER] && WithHeader(s)[HEADER + 12..|s| - 4] == s[HEADER + 12..|s| - 4]
  {
    hide Header, TrailerFor, Overwritten;
    HeaderLengths(|s| / 4);
    var header := Header(|s| / 4);
    var h := Overwritten(s, HEADER, header);
    var trailer := TrailerFor(h[..|s| - 4]);
    TrailerLength(h[..|s| - 4]);
    Elsewhere(h, |s| - 4, trailer, HEADER, HEADER + 12);
    Elsewhere(h, |s| - 4, trailer, 0, |s| - 4);
    Elsewhere(s, HEADER, header, 0, HEADER);
    Elsewhere(h, |s| - 4, trailer, 0, HEADER);
    Elsewhere(s, HEADER, header, HEADER + 12, |s| - 4);
    Elsewhere(h, |s| - 4, trailer, HEADER + 12, |s| - 4);
    var r := WithHeader(s);
    assert r[0..|s| - 4] == r[..|s| - 4] && h[0..|s| - 4] == h[..|s| - 4];
    assert r[0..HEADER] == r[..HEADER] && s[0..HEADER] == s[..HEADER];
  }

  lemma TrailerLength(body: seq<Byte>)
    ensures |TrailerFor(body)| == 4
  {
  }

  /** add_socfpga_header. A size that is no multiple of four is refused and nothing is written. */
  method AddSocfpgaHeader(buf: array<Byte>) returns (ok: bool)
    requires buf.Length >= HEADER + 16
    modifies buf
    ensures ok == (buf.Length % 4 == 0)
    ensures buf[..] == if ok then WithHeader(old(buf[..])) else old(buf[..])
  {
    var size := buf.Length;
    if size % 4 != 0 {
      return false;
    }
    hide *;
    HeaderLengths(size / 4);
    StoreHeader(buf);
    ghost var s1 := buf[..];
    var crc := ComputeCrc32(0xffffffff, buf, size - 4);
    crc := Xor(crc, 0xffffffff);
    assert buf[..size - 4] == s1[..size - 4];
    Stored(crc, s1[..size - 4]);
    StoreBytes(buf, size - 4, LittleEndian(crc));
    WithHeaderIs(old(buf[..]));
    ok := true;
  }

  lemma WithHeaderIs(s: seq<Byte>)
    requires |s| >= HEADER + 16
    ensures |Header(|s| / 4)| == 12
    ensures var h := Overwritten(s, HEADER, Header(|s| / 4));
            |TrailerFor(h[..|s| - 4])| == 4 && WithHeader(s) == Overwritten(h, |s| - 4, TrailerFor(h[..|s| - 4]))
  {
    HeaderLengths(|s| / 4);
  }

  lemma HeaderLengths(words: nat)
    ensures |HeaderStart(words)| == 10 && |Header(words)| == 12
  {
  }

  lemma TwoLengths(n: nat)
    ensures |TwoBytes(n)| == 2
  {
  }

  lemma Stored(crc: Word, body: seq<Byte>)
    requires crc == Xor(Crc32(0xffffffff, body), 0xffffffff)
    ensures LittleEndian(crc) == TrailerFor(body) && |LittleEndian(crc)| == 4
  {
  }

  // ---------------------------------------------------------------- main

  /** bb_header: the start of a barebox image. */
  const BB_HEADER: seq<Word> := [
    0xea00007e, 0xeafffffe, 0xeafffffe, 0xeafffffe, 0xeafffffe, 0xeafffffe, 0xeafffffe, 0xeafffffe,
    0x65726162, 0x00786f62, 0x00000000, 0x00000000, 0x00000000, 0x00000000, 0x00000000, 0x00000000,
    0x00000000, 0x00000000, 0x00000000, 0xea00006b]

  function BytesOf(words: seq<Word>): (r: seq<Byte>)
    ensures |r| == 4 * |words|
  {
    if words == [] then [] else LittleEndian(words[0]) + BytesOf(words[1..])
  }

  function Padding(size: nat): nat {
    if size % 4 == 0 then 0 else 4 - size % 4
  }

  /** The sizes main accepts, with and without option -b. */
  predicate Accepted(size: nat, barebox: bool) {
    if barebox then size <= MAX_IMAGE_SIZE - 512 else 80 <= size <= MAX_IMAGE_SIZE
  }

  function ImageSize(size: nat, barebox: bool): nat {
    size + 4 + (if barebox then 512 else 0) + Padding(size)
  }

  /** An accepted input leads to an image of whole words in which header and CRC do not overlap, whose
      length in words fits the length field, and that fits in 60 KiB. */
  lemma ImageSizeFits(size: nat, barebox: bool)
    requires Accepted(size, barebox)
    ensures ImageSize(size, barebox) % 4 == 0
    ensures HEADER + 16 <= ImageSize(size, barebox) <= 60 * 1024
    ensures ImageSize(size, barebox) / 4 < 0x10000
  {
  }

  /** What is accepted: whatever fits in 60 KiB with CRC and padding, and without the option at least 80
      bytes, up to the end of a barebox header. */
  lemma AcceptedIff(size: nat, barebox: bool)
    ensures Accepted(size, barebox) <==> ImageSize(size, barebox) <= 60 * 1024 && (barebox || size >= 4 * |BB_HEADER|)
  {
  }

  function Zeros(n: nat): (r: seq<Byte>)
    ensures |r| == n
  {
    seq(n, i => 0)
  }

  /** The buffer before the header is added: zeros, the input, and the barebox header if wanted. */
  function Layout(input: seq<Byte>, barebox: bool): (r: seq<Byte>)
    ensures |r| == ImageSize(|input|, barebox)
  {
    var s := Overwritten(Zeros(ImageSize(|input|, barebox)), if barebox then 512 else 0, input);
    if barebox then Overwritten(s, 0, BytesOf(BB_HEADER)) else s
  }

  /** main, from the input file to the output file. */
  method MakeImage(input: seq<Byte>, barebox: bool) returns (image: Option<seq<Byte>>)
    ensures image.Some? <==> Accepted(|input|, barebox)
    ensures image.Some? ==> |input| + (if barebox then 512 else 0) + 4 >= HEADER + 16
    ensures image.Some? ==> image.value == WithHeader(Layout(input, barebox))
  {
    if !Accepted(|input|, barebox) {
      return None;
    }
    hide WithHeader, Overwritten, BytesOf;
    ImageSizeFits(|input|, barebox);
    var addsize := if barebox then 512 else 0;
    var size := |input| + 4 + addsize + Padding(|input|);
    var buf := new Byte[size](_ => 0);
    assert buf[..] == Zeros(size);
    StoreBytes(buf, addsize, input);
    if barebox {
      StoreBytes(buf, 0, BytesOf(BB_HEADER));
    }
    var ok := AddSocfpgaHeader(buf);
    image := Some(buf[..]);
  }

  /** The image of an accepted input passes the loader's checks and holds the input unchanged, but
      for the place of the header when there is no barebox header in front. */
  lemma ImageHoldsInput(input: seq<Byte>, barebox: bool)
    requires Accepted(|input|, barebox)
    ensures ImageSize(|input|, barebox) >= HEADER + 16
    ensures var image := WithHeader(Layout(input, barebox));
            && ValidImage(image)
            && (barebox ==> image[512..512 + |input|] == input)
            && (!barebox ==> image[..HEADER] == input[..HEADER] && image[HEADER + 12..|input|] == input[HEADER + 12..])
  {
    hide WithHeader, ValidImage, BytesOf, Overwritten;
    ImageSizeFits(|input|, barebox);
    var s, n := Layout(input, barebox), ImageSize(|input|, barebox);
    WithHeaderIsValid(s);
    var image := WithHeader(s);
    if barebox {
      Elsewhere(Overwritten(Zeros(n), 512, input), 0, BytesOf(BB_HEADER), 512, 512 + |input|);
      Within(image, s, HEADER + 12, n - 4, 512, 512 + |input|);
    } else {
      assert s[0..|input|] == input;
      Within(s, s, 0, |input|, 0, HEADER);
      assert s[..HEADER] == s[0..|input|][..HEADER];
      Within(image, s, HEADER + 12, n - 4, HEADER + 12, |input|);
      assert s[HEADER + 12..|input|] == s[0..|input|][HEADER + 12..];
    }
  }

  lemma Within(a: seq<Byte>, b: seq<Byte>, i: nat, k: nat, x: nat, y: nat)
    requires i <= x <= y <= k <= |a| && k <= |b| && a[i..k] == b[i..k]
    ensures a[x..y] == b[x..y]
  {
    forall j | x <= j < y ensures a[j] == b[j] {
      assert a[j] == a[i..k][j - i] && b[j] == b[i..k][j - i];
    }
  }

  /** The rest of the image is zero between the input and the CRC, and the barebox header is in front,
      but for the place of the other header. */
  lemma ImageIsFilled(input: seq<Byte>, barebox: bool)
    requires Accepted(|input|, barebox)
    ensures ImageSize(|input|, barebox) >= HEADER + 16
    ensures var image, n, from := WithHeader(Layout(input, barebox)), ImageSize(|input|, barebox), if barebox then 512 else 0;
            && (forall k :: from + |input| <= k < n - 4 ==> image[k] == 0)
            && (barebox ==>
                  && image[..HEADER] == BytesOf(BB_HEADER)[..HEADER] && image[HEADER + 12..80] == BytesOf(BB_HEADER)[HEADER + 12..]
                  && forall k :: 80 <= k < 512 ==> image[k] == 0)
  {
    hide WithHeader, ValidImage, BytesOf, ImageSize, Accepted;
    ImageSizeFits(|input|, barebox);
    EnoughRoom(|input|, barebox);
    FrontLength();
    var s, n := Layout(input, barebox), ImageSize(|input|, barebox);
    WithHeaderIsValid(s);
    LayoutIs(input, barebox);
    hide *;
    KeptOutside(s, WithHeader(s), BytesOf(BB_HEADER), if barebox then 512 else 0, |input|, barebox);
  }

  lemma KeptOutside(s: seq<Byte>, image: seq<Byte>, front: seq<Byte>, from: nat, size: nat, barebox: bool)
    requires |s| == |image| >= HEADER + 16 && IsFilled(s, front, from, size, barebox) && (barebox ==> from == 512) && (!barebox ==> size >= 80)
    requires image[..HEADER] == s[..HEADER] && image[HEADER + 12..|s| - 4] == s[HEADER + 12..|s| - 4]
    ensures forall k :: from + size <= k < |s| - 4 ==> image[k] == 0
    ensures barebox && |s| >= 516 ==>
              && image[..HEADER] == front[..HEADER] && image[HEADER + 12..80] == front[HEADER + 12..]
              && forall k :: 80 <= k < 512 ==> image[k] == 0
  {
    forall k | HEADER + 12 <= k < |s| - 4 ensures image[k] == s[k] {
      SameAt(image, s, HEADER + 12, |s| - 4, k);
    }
    if barebox && |s| >= 516 {
      Within(image, s, HEADER + 12, |s| - 4, HEADER + 12, 80);
    }
  }

  lemma SameAt(a: seq<Byte>, b: seq<Byte>, i: nat, j: nat, k: nat)
    requires i <= k < j <= |a| && j <= |b| && a[i..j] == b[i..j]
    ensures a[k] == b[k]
  {
    assert a[k] == a[i..j][k - i] && b[k] == b[i..j][k - i];
  }

  lemma EnoughRoom(size: nat, barebox: bool)
    requires Accepted(size, barebox)
    ensures var n := ImageSize(size, barebox);
            && size + 4 + (if barebox then 512 else 0) <= n && (!barebox ==> size >= 80) && HEADER == 64
  {
  }

  lemma FrontLength()
    ensures |BytesOf(BB_HEADER)| == 80
  {
    hide BytesOf;
  }

  /** `front` over `input` at `from` over zeros. */
  predicate IsFilled(s: seq<Byte>, front: seq<Byte>, from: nat, size: nat, barebox: bool) {
    && from + size <= |s| && (forall k :: from + size <= k < |s| ==> s[k] == 0)
    && (barebox ==>
          && |front| == 80 && 512 <= |s| && s[..HEADER] == front[..HEADER] && s[HEADER + 12..80] == front[HEADER + 12..]
          && forall k :: 80 <= k < 512 ==> s[k] == 0)
  }

  lemma LayoutIs(input: seq<Byte>, barebox: bool)
    requires Accepted(|input|, barebox)
    ensures var n, from := ImageSize(|input|, barebox), if barebox then 512 else 0;
            n >= from + |input| + 4 && IsFilled(Layout(input, barebox), BytesOf(BB_HEADER), from, |input|, barebox)
  {
    hide BytesOf, Overwritten, IsFilled;
    EnoughRoom(|input|, barebox);
    FrontLength();
    var n, from := ImageSize(|input|, barebox), if barebox then 512 else 0;
    var filled := Overwritten(Zeros(n), from, input);
    if barebox {
      FilledWithFront(n, input, BytesOf(BB_HEADER));
    } else {
      FilledOnly(n, input, BytesOf(BB_HEADER));
    }
  }

  lemma FilledOnly(n: nat, input: seq<Byte>, front: seq<Byte>)
    requires |input| <= n
    ensures IsFilled(Overwritten(Zeros(n), 0, input), front, 0, |input|, false)
  {
    AllZero(n);
    forall k | |input| <= k < n ensures Overwritten(Zeros(n), 0, input)[k] == 0 {
      OverwrittenAt(Zeros(n), 0, input, k);
    }
  }

  lemma FilledWithFront(n: nat, input: seq<Byte>, front: seq<Byte>)
    requires 512 + |input| <= n && |front| == 80
    ensures IsFilled(Overwritten(Overwritten(Zeros(n), 512, input), 0, front), front, 512, |input|, true)
  {
    var filled := Overwritten(Zeros(n), 512, input);
    var s := Overwritten(filled, 0, front);
    AllZero(n);
    forall k | 0 <= k < n && (k < 512 || 512 + |input| <= k) ensures filled[k] == 0 {
      OverwrittenAt(Zeros(n), 512, input, k);
    }
    InFront(filled, front);
    forall k | 80 <= k < n ensures s[k] == filled[k] {
      OverwrittenAt(filled, 0, front, k);
    }
    hide Overwritten, Zeros;
    assert s[..HEADER] == s[..80][..HEADER] && s[HEADER + 12..80] == s[..80][HEADER + 12..];
  }

  lemma AllZero(n: nat)
    ensures forall k :: 0 <= k < n ==> Zeros(n)[k] == 0
  {
  }

  lemma OverwrittenAt(s: seq<Byte>, at: nat, bytes: seq<Byte>, k: nat)
    requires at + |bytes| <= |s| && k < |s| && (k < at || at + |bytes| <= k)
    ensures Overwritten(s, at, bytes)[k] == s[k]
  {
  }

  lemma InFront(s: seq<Byte>, bytes: seq<Byte>)
    requires |bytes| <= |s|
    ensures Overwritten(s, 0, bytes)[..|bytes|] == bytes
  {
  }
}
