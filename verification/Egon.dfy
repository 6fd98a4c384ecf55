/** `allwindisk/egon.c`: a boot image is padded, given its size and checksum, and replicated over
    the boot area. */
module Egon {
  import opened BinaryArithmetic
  import opened CommandWrapper
  import opened LittleEndian
  import opened Sequences

  const CHECKSUM_SEED: word := 0x5F0A6C39

  function RoundUp(val: nat, round: nat): (r: nat)
    requires round > 0
    ensures val <= r < val + round && r % round == 0
  {
    RoundedUp(val, round);
    if val % round != 0 then val + (round - val % round) else val
  }

  lemma RoundedUp(val: nat, round: nat)
    requires round > 0
    ensures val % round != 0 ==> (val + (round - val % round)) % round == 0
  {
    var q := val / round;
    assert val == round * q + val % round;
    assert round * (q + 1) == round * q + round by { MulDistributes(round, q, -1); }
    RemainderIs(val + (round - val % round), round, q + 1, 0);
  }

  /** `s` with a 32-bit field stored at `at`. */
  function WithField(s: seq<byte>, at: nat, v: word): (r: seq<byte>)
    requires at + 4 <= |s|
    ensures |r| == |s|
  {
    s[..at] + Encode(v, 4) + s[at + 4..]
  }

  /** Addition of unsigned words. */
  function Plus(a: word, b: word): word {
    (a + b) % 0x1_0000_0000
  }

  /** The sum of the little-endian words of `s`, modulo 2^32. */
  function Sum32(s: seq<byte>): (v: word) {
    if |s| < 4 then 0 else Plus(Sum32(s[..|s| - 4]), Le32(s, |s| - 4))
  }

  function Checksum(image: seq<byte>): word
    requires |image| % 4 == 0 && |image| >= 16
  {
    Sum32(WithField(image, 12, CHECKSUM_SEED))
  }

  /** A boot image is genuine when its stored checksum is the sum of its words, with the seed in
      the checksum's place. */
  predicate Genuine(image: seq<byte>) {
    |image| % 4 == 0 && |image| >= 16 && Le32(image, 12) == Checksum(image)
  }

  /** The image padded to whole kilobytes, with its size filled in. */
  function Sized(image: seq<byte>): (r: seq<byte>)
    requires |image| >= 20 && RoundUp(|image|, 1024) < 0x1_0000_0000
    ensures |r| == RoundUp(|image|, 1024) >= 1024
  {
    var n := RoundUp(|image|, 1024);
    WithField(image + Fill(n - |image|), 16, n)
  }

  /** ... and its checksum. */
  function Signed(image: seq<byte>): (r: seq<byte>)
    requires |image| >= 20 && RoundUp(|image|, 1024) < 0x1_0000_0000
    ensures |r| == RoundUp(|image|, 1024)
  {
    WithField(Sized(image), 12, Checksum(Sized(image)))
  }

  /** ... padded to whole erase blocks of 64 pages. */
  function Replica(image: seq<byte>, pageSize: nat): (r: seq<byte>)
    requires |image| >= 20 && RoundUp(|image|, 1024) < 0x1_0000_0000 && pageSize > 0
    ensures |r| == RoundUp(RoundUp(|image|, 1024), 64 * pageSize)
  {
    var s := Signed(image);
    s + Fill(RoundUp(|s|, 64 * pageSize) - |s|)
  }

  lemma FieldStored(s: seq<byte>, at: nat, v: word)
    requires at + 4 <= |s|
    ensures Le32(WithField(s, at, v), at) == v
    ensures forall w: word :: WithField(WithField(s, at, v), at, w) == WithField(s, at, w)
  {
    hide Encode, Decode, Pow256;
    WordRoundTrip(v);
    assert WithField(s, at, v)[at..at + 4] == Encode(v, 4);
  }

  /** The signed image is genuine, carries its padded size, and is otherwise the image. */
  lemma SignedIsGenuine(image: seq<byte>)
    requires |image| >= 20 && RoundUp(|image|, 1024) < 0x1_0000_0000
    ensures Genuine(Signed(image)) && Le32(Signed(image), 16) == |Signed(image)|
    ensures forall i :: 20 <= i < |image| || 0 <= i < 12 ==> Signed(image)[i] == image[i]
  {
    hide RoundUp, Checksum, Le32, WordSum, Le;
    PaddedSize(|image|);
    SignedBytes(image);
    var n, sized := RoundUp(|image|, 1024), Sized(image);
    FieldStored(image + Fill(n - |image|), 16, n);
    FieldStored(sized, 12, Checksum(sized));
    SameChecksum(sized, Checksum(sized));
    OtherField(sized, 12, Checksum(sized), 16);
  }

  /** The stored checksum does not count. */
  lemma SameChecksum(image: seq<byte>, v: word)
    requires |image| % 4 == 0 && |image| >= 16
    ensures Checksum(WithField(image, 12, v)) == Checksum(image)
  {
    hide Sum32, Encode, Le32;
    assert WithField(WithField(image, 12, v), 12, CHECKSUM_SEED) == WithField(image, 12, CHECKSUM_SEED);
  }

  lemma OtherField(s: seq<byte>, at: nat, v: word, other: nat)
    requires at + 4 <= other && other + 4 <= |s|
    ensures Le32(WithField(s, at, v), other) == Le32(s, other)
  {
    hide Encode, Decode, Pow256;
    assert WithField(s, at, v)[other..other + 4] == s[other..other + 4];
  }

  // ----- in place

  /** setBootImgChecksum */
  method SetBootImgChecksum(buf: array<byte>, imageSize: nat)
    requires 16 <= imageSize <= buf.Length && imageSize % 4 == 0
    modifies buf
    ensures buf[..imageSize] == WithField(old(buf[..imageSize]), 12, Checksum(old(buf[..imageSize])))
    ensures buf[imageSize..] == old(buf[imageSize..])
  {
    ghost var image := buf[..imageSize];
    PutWord(buf, imageSize, 12, CHECKSUM_SEED);
    var checksum := SumWords(buf[..imageSize]);
    PutWord(buf, imageSize, 12, checksum);
    FieldStored(image, 12, CHECKSUM_SEED);
  }

  /** The summing loop. */
  method SumWords(image: seq<byte>) returns (checksum: word)
    requires |image| % 4 == 0
    ensures checksum == Sum32(image)
  {
    hide *;
    var addr: nat := 0;
    checksum := 0;
    NoWords(image[..0]);
    while addr < |image|
      invariant addr <= |image| && addr % 4 == 0 && checksum == Sum32(image[..addr])
    {
      NextWord(image, addr);
      checksum := Plus(checksum, Le32(image, addr));
      addr := addr + 4;
    }
    assert image[..addr] == image;
  }

  lemma NextWord(s: seq<byte>, at: nat)
    requires at + 4 <= |s|
    ensures Sum32(s[..at + 4]) == Plus(Sum32(s[..at]), Le32(s, at))
  {
    hide Plus, Sum32, Decode, Pow256;
    var next := s[..at + 4];
    assert next[..at] == s[..at] && next[at..at + 4] == s[at..at + 4];
    LastWord(next);
  }

  lemma NoWords(s: seq<byte>)
    requires s == []
    ensures Sum32(s) == 0
  {
  }

  lemma LastWord(s: seq<byte>)
    requires |s| >= 4
    ensures Sum32(s) == Plus(Sum32(s[..|s| - 4]), Le32(s, |s| - 4))
  {
    hide Plus, Le32, Decode, Pow256;
  }

  /** Stores a little-endian word into the first `size` bytes. */
  method PutWord(buf: array<byte>, size: nat, at: nat, v: word)
    requires at + 4 <= size <= buf.Length
    modifies buf
    ensures buf[..size] == WithField(old(buf[..size]), at, v) && buf[size..] == old(buf[size..])
  {
    var bytes := Encode(v, 4);
    forall i | 0 <= i < 4 {
      buf[at + i] := bytes[i];
    }
    assert buf[..size] == WithField(old(buf[..size]), at, v);
  }

  /** Erases from the unrounded size on, as many bytes as the rounded size has. */
  method Pad(buf: array<byte>, n: nat, round: nat) returns (size: nat)
    requires round > 0 && n + RoundUp(n, round) <= buf.Length
    modifies buf
    ensures size == RoundUp(n, round)
    ensures buf[..size] == old(buf[..n]) + Fill(size - n)
  {
    size := RoundUp(n, round);
    Erase(buf, n, size);
    assert buf[..size] == old(buf[..n]) + Fill(size - n);
  }

  /** memset with 0xff */
  method Erase(buf: array<byte>, at: nat, n: nat)
    requires at + n <= buf.Length
    modifies buf
    ensures buf[..] == old(buf[..at]) + Fill(n) + old(buf[at + n..])
  {
    forall i | at <= i < at + n {
      buf[i] := 0xff;
    }
    assert buf[..] == old(buf[..at]) + Fill(n) + old(buf[at + n..]);
  }

  /** Both paddings erase as many bytes as the rounded size, from the unrounded size on; they
      stay inside the area exactly under this condition, which the source does not check. */
  predicate PaddingFits(imageSize: nat, pageSize: nat, areaSize: nat)
    requires pageSize > 0
  {
    && imageSize + RoundUp(imageSize, 1024) <= areaSize
    && RoundUp(imageSize, 1024) + RoundUp(RoundUp(imageSize, 1024), 64 * pageSize) <= areaSize
  }

  /** The second padding is the one that decides. */
  lemma SecondPaddingDecides(imageSize: nat, pageSize: nat, areaSize: nat)
    requires pageSize > 0
    ensures PaddingFits(imageSize, pageSize, areaSize) <==>
            RoundUp(imageSize, 1024) + RoundUp(RoundUp(imageSize, 1024), 64 * pageSize) <= areaSize
  {
  }

  /** An image that passes the size check can still be padded past the end of the area. */
  lemma SizeCheckIsNotEnough()
    ensures 0x9_0000 <= 0x10_0000 && !PaddingFits(0x9_0000, 0x2000, 0x10_0000)
  {
  }

  /** `n` copies of `s`. */
  function Copies(s: seq<byte>, n: nat): (r: seq<byte>)
    ensures |r| == n * |s|
  {
    if n == 0 then [] else
      MulDistributes(|s|, n, 1);
      Copies(s, n - 1) + s
  }

  /** The `i`-th part of the copies is the original. */
  lemma {:induction false} CopiesAt(s: seq<byte>, n: nat, i: nat)
    requires i < n
    ensures 0 <= i * |s| <= i * |s| + |s| <= n * |s|
    ensures Copies(s, n)[i * |s|..i * |s| + |s|] == s
  {
    MulDistributes(|s|, n, 1);
    if i < n - 1 {
      CopiesAt(s, n - 1, i);
      assert |Copies(s, n - 1)| == (n - 1) * |s|;
    }
  }

  /** The contents of the boot area: replicas, then erased bytes. */
  function BootArea(replica: seq<byte>, areaSize: nat): (r: seq<byte>)
    requires 0 < |replica|
    ensures |r| == areaSize
  {
    var count := areaSize / |replica|;
    WholeCopies(areaSize, |replica|);
    Copies(replica, count) + Fill(areaSize - count * |replica|)
  }

  lemma WholeCopies(areaSize: nat, size: nat)
    requires size > 0
    ensures 0 <= areaSize / size * size <= areaSize < areaSize / size * size + size
  {
    assert areaSize == size * (areaSize / size) + areaSize % size;
  }

  /** Every whole replica in the area holds a genuine boot image. */
  lemma EveryReplicaBoots(image: seq<byte>, pageSize: nat, areaSize: nat, i: nat)
    requires |image| >= 20 && pageSize > 0 && RoundUp(|image|, 1024) < 0x1_0000_0000
    requires i < areaSize / |Replica(image, pageSize)|
    ensures var size := |Replica(image, pageSize)|;
            0 <= i * size <= i * size + |Signed(image)| <= areaSize
    ensures var size := |Replica(image, pageSize)|;
            BootArea(Replica(image, pageSize), areaSize)[i * size..i * size + |Signed(image)|] == Signed(image)
    ensures Genuine(Signed(image))
  {
    var replica := Replica(image, pageSize);
    var n := areaSize / |replica|;
    WholeCopies(areaSize, |replica|);
    CopiesAt(replica, n, i);
    SignedIsGenuine(image);
    var at := i * |replica|;
    var area := BootArea(replica, areaSize);
    assert area[at..at + |replica|] == Copies(replica, n)[at..at + |replica|];
    assert area[at..at + |Signed(image)|] == area[at..at + |replica|][..|Signed(image)|];
  }

  /** The sum of little-endian words, unbounded. */
  function WordSum(s: seq<byte>): nat {
    if |s| < 4 then 0 else ((s[3] as nat * 0x100 + s[2]) * 0x100 + s[1]) * 0x100 + s[0] + WordSum(s[4..])
  }

  lemma {:induction false} WordSumLast(s: seq<byte>, n: nat)
    requires |s| == 4 * n + 4
    ensures WordSum(s) == WordSum(s[..4 * n]) + Le32(s, 4 * n)
  {
    WordIs(s, 4 * n);
    hide Le32;
    if n == 0 {
      assert WordSum(s[4..]) == 0 && WordSum(s[..0]) == 0;
    } else {
      WordSumLast(s[4..], n - 1);
      assert s[4..][..4 * (n - 1)] == s[..4 * n][4..];
      WordIs(s[4..], 4 * (n - 1));
    }
  }

  lemma NoWordSum(s: seq<byte>)
    requires s == []
    ensures WordSum(s) == 0
  {
  }

  lemma WordIs(s: seq<byte>, at: nat)
    requires at + 4 <= |s|
    ensures Le32(s, at) == ((s[at + 3] as nat * 0x100 + s[at + 2]) * 0x100 + s[at + 1]) * 0x100 + s[at]
  {
    var w := s[at..at + 4];
    assert w[3..][1..] == [] && Decode(w[3..]) == w[3];
    assert w[2..][1..] == w[3..] && Decode(w[2..]) == w[2] + 0x100 * Decode(w[3..]);
    assert w[1..][1..] == w[2..] && Decode(w[1..]) == w[1] + 0x100 * Decode(w[2..]);
  }

  lemma {:induction false} SumIsRemainder(s: seq<byte>, n: nat)
    requires |s| == 4 * n
    ensures Sum32(s) == WordSum(s) % 0x1_0000_0000
  {
    hide Le32, WordSum;
    if n == 0 {
      NoWordSum(s);
    } else {
      WordSumLast(s, n - 1);
      SumIsRemainder(s[..4 * (n - 1)], n - 1);
      var front := s[..4 * (n - 1)];
      assert Sum32(s) == Plus(Sum32(front), Le32(s, 4 * (n - 1)));
    }
  }

  /** What is written, byte by byte: the image, padded with 0xff; its size in whole kilobytes at 16;
      at 12 the sum of its words, taken with the seed there; and the same again after each `size`
      bytes, as often as it fits, with 0xff behind. */
  lemma AreaBytes(image: seq<byte>, pageSize: nat, areaSize: nat)
    requires |image| >= 20 && pageSize > 0 && RoundUp(|image|, 1024) < 0x1_0000_0000
    requires RoundUp(RoundUp(|image|, 1024), 64 * pageSize) <= areaSize
    ensures var n, size := RoundUp(|image|, 1024), RoundUp(RoundUp(|image|, 1024), 64 * pageSize);
            var a := BootArea(Replica(image, pageSize), areaSize);
            && |a| == areaSize && |image| <= n <= size
            && a[16..20] == Le(n)
            && a[12..16] == Le(WordSum(a[..12] + [0x39, 0x6C, 0x0A, 0x5F] + a[16..n]) % 0x1_0000_0000)
            && (forall j :: 0 <= j < 12 || 20 <= j < |image| ==> a[j] == image[j])
            && (forall j :: |image| <= j < size ==> a[j] == 0xff)
            && (forall j :: size <= j < areaSize / size * size ==> a[j] == a[j - size])
            && (forall j :: 0 <= areaSize / size * size <= j < areaSize ==> a[j] == 0xff)
  {
    hide RoundUp, BootArea, Replica, WordSum, Le;
    ReplicaBytes(image, pageSize);
    var replica, n := Replica(image, pageSize), RoundUp(|image|, 1024);
    AreaPeriodic(replica, areaSize);
    var a := BootArea(replica, areaSize);
    assert a[..12] == replica[..12] && a[12..16] == replica[12..16] && a[16..20] == replica[16..20];
    assert a[16..n] == replica[16..n];
    forall j | 0 <= j < |replica| ensures a[j] == replica[j] { assert a[j] == a[..|replica|][j]; }
  }

  /** The replicas and the rest of the area. */
  lemma AreaPeriodic(replica: seq<byte>, areaSize: nat)
    requires 0 < |replica| <= areaSize
    ensures var a, size := BootArea(replica, areaSize), |replica|;
            && |a| == areaSize && a[..size] == replica && size <= areaSize / size * size <= areaSize
            && (forall j :: size <= j < areaSize / size * size ==> a[j] == a[j - size])
            && (forall j :: areaSize / size * size <= j < areaSize ==> a[j] == 0xff)
  {
    hide Copies;
    var a, size := BootArea(replica, areaSize), |replica|;
    var n := areaSize / size;
    WholeCopies(areaSize, size);
    AtLeastOneCopy(areaSize, size);
    CopiesAt(replica, n, 0);
    MulGrows(1, n, size);
    forall j | size <= j < n * size ensures a[j] == a[j - size] {
      var i, k := j / size, j % size;
      InCopy(j, n, size);
      CopiesAt(replica, n, i);
      CopiesAt(replica, n, i - 1);
      assert Copies(replica, n)[j] == Copies(replica, n)[i * size..i * size + size][k];
      assert Copies(replica, n)[j - size] == Copies(replica, n)[(i - 1) * size..(i - 1) * size + size][k];
    }
  }

  lemma InCopy(j: nat, n: nat, size: nat)
    requires 0 < size <= j < n * size
    ensures 1 <= j / size < n && j == j / size * size + j % size && (j / size - 1) * size == j / size * size - size
  {
    var i := j / size;
    assert j == size * i + j % size;
    MulDistributes(size, i, 1);
    if i >= n { MulGrows(n, i, size); }
  }

  lemma ReplicaBytes(image: seq<byte>, pageSize: nat)
    requires |image| >= 20 && pageSize > 0 && RoundUp(|image|, 1024) < 0x1_0000_0000
    ensures var n, a := RoundUp(|image|, 1024), Replica(image, pageSize);
            && |image| <= n <= |a|
            && a[16..20] == Le(n)
            && a[12..16] == Le(WordSum(a[..12] + [0x39, 0x6C, 0x0A, 0x5F] + a[16..n]) % 0x1_0000_0000)
            && (forall j :: 0 <= j < 12 || 20 <= j < |image| ==> a[j] == image[j])
            && (forall j :: |image| <= j < |a| ==> a[j] == 0xff)
  {
    hide RoundUp, WordSum, Le, Signed;
    SignedBytes(image);
    var n, signed, a := RoundUp(|image|, 1024), Signed(image), Replica(image, pageSize);
    assert a[..n] == signed && a[n..] == Fill(|a| - n);
    assert a[16..20] == signed[16..20] && a[12..16] == signed[12..16] && a[..12] == signed[..12];
    assert a[16..n] == signed[16..];
    forall j | |image| <= j < |a| ensures a[j] == 0xff {
      if j >= n { assert a[j] == a[n..][j - n]; } else { assert a[j] == signed[j]; }
    }
  }

  lemma SignedBytes(image: seq<byte>)
    requires |image| >= 20 && RoundUp(|image|, 1024) < 0x1_0000_0000
    ensures var s := Signed(image);
            && |image| <= |s| && s[16..20] == Le(|s|)
            && s[12..16] == Le(WordSum(s[..12] + [0x39, 0x6C, 0x0A, 0x5F] + s[16..]) % 0x1_0000_0000)
            && (forall j :: 0 <= j < 12 || 20 <= j < |image| ==> s[j] == image[j])
            && (forall j :: |image| <= j < |s| ==> s[j] == 0xff)
  {
    hide RoundUp, Checksum, WordSum, Le, Encode;
    var n, sized, s := RoundUp(|image|, 1024), Sized(image), Signed(image);
    PaddedSize(|image|);
    LeEncodes(n);
    LeEncodes(Checksum(sized));
    assert sized[16..20] == Encode(n, 4) && s[16..] == sized[16..] && s[..12] == sized[..12];
    assert s[16..20] == s[16..][..4];
    var seeded := s[..12] + [0x39, 0x6C, 0x0A, 0x5F] + s[16..];
    SeedBytes();
    assert seeded == WithField(sized, 12, CHECKSUM_SEED);
    ChecksumIs(sized, seeded);
  }

  lemma SeedBytes()
    ensures Encode(CHECKSUM_SEED, 4) == [0x39, 0x6C, 0x0A, 0x5F]
  {
    LeEncodes(CHECKSUM_SEED);
  }

  lemma ChecksumIs(sized: seq<byte>, seeded: seq<byte>)
    requires |sized| >= 16 && |sized| % 4 == 0 && seeded == WithField(sized, 12, CHECKSUM_SEED)
    ensures Checksum(sized) == WordSum(seeded) % 0x1_0000_0000
  {
    hide Sum32, WordSum;
    SumIsRemainder(seeded, |seeded| / 4);
  }

  /** `Overruns`: a padding reaches behind the area, where C defines nothing any more. */
  datatype Embedding = TooBig | Overruns | Embedded(buf: array<byte>)

  /** egon0_embed, up to the write of the area. */
  method Egon0Embed(image: seq<byte>, pageSize: nat, areaSize: nat) returns (r: Embedding)
    requires |image| >= 20 && pageSize > 0 && areaSize < 0x1_0000_0000
    ensures r.TooBig? <==> |image| > areaSize
    ensures r.Overruns? <==> |image| <= areaSize && !PaddingFits(|image|, pageSize, areaSize)
    ensures r.Embedded? ==> fresh(r.buf) && r.buf[..] == BootArea(Replica(image, pageSize), areaSize)
  {
    if |image| > areaSize {
      return TooBig;
    }
    if !PaddingFits(|image|, pageSize, areaSize) {
      return Overruns;
    }
    var buf := new byte[areaSize];
    forall i | 0 <= i < |image| {
      buf[i] := image[i];
    }
    assert buf[..|image|] == image;
    var imageSize := Sign(buf, |image|);
    var replicaSize := Pad(buf, imageSize, 64 * pageSize);
    Replicate(buf, replicaSize);
    r := Embedded(buf);
  }

  /** The first padding, the size and the checksum. */
  method Sign(buf: array<byte>, n: nat) returns (size: nat)
    requires 20 <= n && n + RoundUp(n, 1024) <= buf.Length < 0x1_0000_0000
    modifies buf
    ensures size == RoundUp(n, 1024) && buf[..size] == Signed(old(buf[..n]))
  {
    hide *;
    ghost var image := buf[..n];
    PaddedSize(n);
    size := Pad(buf, n, 1024);
    PutWord(buf, size, 16, size);
    SizedImage(image, size, buf[..size]);
    SetBootImgChecksum(buf, size);
    SignedImage(image);
  }

  /** Whole kilobytes are whole words. */
  lemma PaddedSize(n: nat)
    requires n > 0
    ensures RoundUp(n, 1024) >= 1024 && RoundUp(n, 1024) % 4 == 0
  {
    hide RoundUp;
    WholeWords(RoundUp(n, 1024), RoundUp(n, 1024) / 1024);
  }

  lemma WholeWords(size: nat, k: nat)
    requires size == 1024 * k
    ensures size % 4 == 0
  {
    RemainderIs(size, 4, 256 * k, 0);
  }

  lemma SignedImage(image: seq<byte>)
    requires |image| >= 20 && RoundUp(|image|, 1024) < 0x1_0000_0000
    ensures Signed(image) == WithField(Sized(image), 12, Checksum(Sized(image)))
  {
  }

  lemma SizedImage(image: seq<byte>, size: nat, sized: seq<byte>)
    requires |image| >= 20 && size == RoundUp(|image|, 1024) < 0x1_0000_0000
    requires size >= 20 && sized == WithField(image + Fill(size - |image|), 16, size)
    ensures sized == Sized(image)
  {
  }

  /** The copying loop and the erased rest. */
  method Replicate(buf: array<byte>, size: nat)
    requires 0 < size <= buf.Length
    modifies buf
    ensures buf[..] == BootArea(old(buf[..size]), buf.Length)
  {
    hide Copies;
    var count := buf.Length / size;
    ghost var replica := buf[..size];
    WholeCopies(buf.Length, size);
    AtLeastOneCopy(buf.Length, size);
    OneCopy(replica);
    var i: nat := 1;
    while i < count
      invariant 1 <= i <= count && 0 <= i * size <= buf.Length
      invariant buf[..size] == replica && buf[..i * size] == Copies(replica, i)
    {
      NextCopy(replica, i, count);
      CopyDown(buf, i * size, size);
      i := i + 1;
    }
    Erase(buf, count * size, buf.Length - count * size);
  }

  /** One memcpy of the first replica. */
  method CopyDown(buf: array<byte>, at: nat, size: nat)
    requires size <= at && at + size <= buf.Length
    modifies buf
    ensures buf[..] == old(buf[..at]) + old(buf[..size]) + old(buf[at + size..])
  {
    forall j | 0 <= j < size {
      buf[at + j] := buf[j];
    }
    assert buf[..] == old(buf[..at]) + old(buf[..size]) + old(buf[at + size..]);
  }

  lemma AtLeastOneCopy(areaSize: nat, size: nat)
    requires 0 < size <= areaSize
    ensures areaSize / size >= 1
  {
    WholeCopies(areaSize, size);
  }

  lemma OneCopy(s: seq<byte>)
    ensures Copies(s, 1) == s
  {
    assert Copies(s, 0) == [];
  }

  lemma NextCopy(s: seq<byte>, i: nat, count: nat)
    requires 1 <= i < count
    ensures |s| <= i * |s| && i * |s| + |s| == (i + 1) * |s| <= count * |s|
    ensures Copies(s, i + 1) == Copies(s, i) + s
  {
    MulDistributes(|s|, i, -1);
    MulGrows(1, i, |s|);
    MulGrows(i + 1, count, |s|);
  }
}
