/**
 The device tree blob byte by byte: the bytes of words and tokens, and what is at which offset of the header.
 Both the encoding and the decoder go by these.
 */
module FdtBytes {
  import opened Bits
  import opened FdtEncoding
  import opened FdtFormat

  /** The four bytes of v, most significant first. */
  lemma {:induction false} WordBytes(v: nat)
    requires Fits32(v)
    ensures Be32(v) == [(v / 0x100_0000) as byte, (v / 0x1_0000 % 256) as byte, (v / 256 % 256) as byte,
                        (v % 256) as byte]
  {
    assert v / 256 / 256 == v / 0x1_0000 && v / 256 / 256 / 256 == v / 0x100_0000;
    LastByte(v, 3);
    LastByte(v / 256, 2);
    LastByte(v / 0x1_0000, 1);
    LastByte(v / 0x100_0000, 0);
  }

  lemma LastByte(v: nat, n: nat)
    ensures BigEndian(v, n + 1) == BigEndian(v / 256, n) + [(v % 256) as byte]
    ensures BigEndian(v, 0) == []
  {
  }

  /** The word that four bytes stand for. */
  lemma {:induction false} ReadBytes(s: Bytes, at: nat)
    requires at + 4 <= |s|
    ensures WordAt(s, at)
         == s[at] as nat * 0x100_0000 + s[at + 1] as nat * 0x1_0000 + s[at + 2] as nat * 256 + s[at + 3] as nat
  {
    var w := s[at..at + 4];
    assert w[..3] == s[at..at + 3] && w[..3][..2] == s[at..at + 2] && w[..3][..2][..1] == s[at..at + 1];
    assert FromBigEndian(s[at..at + 1]) == s[at] as nat by {
      assert s[at..at + 1][..0] == [];
    }
    assert FromBigEndian(s[at..at + 2]) == 256 * FromBigEndian(s[at..at + 1]) + s[at + 1] as nat;
    assert FromBigEndian(s[at..at + 3]) == 256 * FromBigEndian(s[at..at + 2]) + s[at + 2] as nat;
  }

  /** The numbers of the tokens. */
  lemma {:induction false} TokenBytes()
    ensures Be32(FDT_BEGIN_NODE) == [0, 0, 0, 1] && Be32(FDT_END_NODE) == [0, 0, 0, 2]
    ensures Be32(FDT_PROP) == [0, 0, 0, 3] && Be32(FDT_END) == [0, 0, 0, 9]
  {
    WordBytes(1);
    WordBytes(2);
    WordBytes(3);
    WordBytes(9);
  }

  /** Data is followed by zeros up to a whole word. */
  lemma PaddedBytes(head: Bytes, data: Bytes) returns (zeros: Bytes)
    ensures head + Padded(data) == head + data + zeros
    ensures |zeros| == (4 - |data| % 4) % 4 && forall i | 0 <= i < |zeros| :: zeros[i] == 0
  {
    zeros := Zeros(Pad4(|data|));
    assert head + (data + zeros) == head + data + zeros;
  }

  /** begin_node: its number, the name with a terminating zero, and zeros up to a word. */
  lemma {:induction false} BeginBytes(name: Bytes) returns (zeros: Bytes)
    requires NulFree(name)
    ensures Encode(BeginItem(name)) == Be32(FDT_BEGIN_NODE) + (name + [0]) + zeros
    ensures |zeros| == 3 - |name| % 4 && forall i | 0 <= i < |zeros| :: zeros[i] == 0
  {
    zeros := PaddedBytes(Be32(FDT_BEGIN_NODE), name + [0]);
  }

  /** A property: its number, the length, the offset of the name, the bytes, and zeros up to a word. */
  lemma {:induction false} PropBytes(offset: nat, data: Bytes) returns (zeros: Bytes)
    requires Fits32(offset) && Fits32(|data|)
    ensures Encode(PropItem(offset, data)) == Be32(FDT_PROP) + Be32(|data|) + Be32(offset) + data + zeros
    ensures |zeros| == (4 - |data| % 4) % 4 && forall i | 0 <= i < |zeros| :: zeros[i] == 0
  {
    zeros := PaddedBytes(Be32(FDT_PROP) + Be32(|data|) + Be32(offset), data);
  }

  function RoundUp(n: nat): nat {
    (n + 7) / 8 * 8
  }

  /** The ten words of the header: magic number, sizes and offsets, versions 17 and 16, and cpu 0. */
  lemma {:induction false} HeaderBytes(structBlock: Bytes, strings: Bytes)
    requires BlobFits(structBlock, strings)
    ensures var blob := Layout(structBlock, strings);
      var rsvmap := RoundUp(40 + |structBlock|);
      && |blob| == RoundUp(rsvmap + 16 + |strings|)
      && WordAt(blob, 0) == 0xd00d_feed && WordAt(blob, 4) == |blob| && WordAt(blob, 8) == 40
      && WordAt(blob, 12) == rsvmap + 16 && WordAt(blob, 16) == rsvmap && WordAt(blob, 20) == 17
      && WordAt(blob, 24) == 16 && WordAt(blob, 28) == 0 && WordAt(blob, 32) == |strings|
      && WordAt(blob, 36) == |structBlock|
  {
    var rsvmap := Align8(40 + |structBlock|);
    HeaderReads(structBlock, strings);
    Rounded(40 + |structBlock|);
    Rounded(rsvmap + 16 + |strings|);
  }

  lemma Rounded(n: nat)
    ensures Align8(n) == RoundUp(n)
  {
  }
}
