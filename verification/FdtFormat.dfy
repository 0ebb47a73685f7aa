/**
 The flattened device tree format (sections 5.2 to 5.5 of the Devicetree Specification): a decoder
 for blobs, and the encoding of trees as the writer lays it out. The decoder is the specification:
 what the writer emits must decode to the tree that was described to it.
 */
module FdtFormat {
  import opened Bits

  type Bytes = seq<byte>

  datatype Option<+T> = None | Some(value: T)

  const FDT_MAGIC := 0xd00dfeed
  const FDT_VERSION := 17
  const FDT_LAST_COMP_VERSION := 16

  const FDT_BEGIN_NODE := 1
  const FDT_END_NODE := 2
  const FDT_PROP := 3
  const FDT_NOP := 4
  const FDT_END := 9

  datatype Property = Property(name: Bytes, data: Bytes)

  datatype Tree = Node(name: Bytes, props: seq<Property>, children: seq<Tree>)

  /** One structure-block token with its contents. */
  datatype Event = Begin(name: Bytes) | Prop(prop: Property) | End

  // Big-endian words.

  predicate Fits32(v: nat) {
    v < 0x1_0000_0000
  }

  /** The n low bytes of v, most significant first. */
  function BigEndian(v: nat, n: nat): (s: Bytes)
    ensures |s| == n
    decreases n
  {
    if n == 0 then [] else BigEndian(v / 256, n - 1) + [(v % 256) as byte]
  }

  function FromBigEndian(s: Bytes): nat {
    if s == [] then 0 else 256 * FromBigEndian(s[..|s| - 1]) + s[|s| - 1] as nat
  }

  lemma {:induction false} BigEndianRoundTrip(v: nat, n: nat)
    requires v < Pow2(8 * n)
    ensures FromBigEndian(BigEndian(v, n)) == v
    decreases n
  {
    if n > 0 {
      var front := BigEndian(v / 256, n - 1);
      assert Pow2(8 * n) == 256 * Pow2(8 * (n - 1)) by {
        EightBits(8 * (n - 1));
      }
      BigEndianRoundTrip(v / 256, n - 1);
      assert BigEndian(v, n)[..n - 1] == front;
    }
  }

  lemma EightBits(k: nat)
    ensures Pow2(k + 8) == 256 * Pow2(k)
  {
    assert Pow2(k + 2) == 4 * Pow2(k);
    assert Pow2(k + 4) == 4 * Pow2(k + 2);
    assert Pow2(k + 6) == 4 * Pow2(k + 4);
    assert Pow2(k + 8) == 4 * Pow2(k + 6);
  }

  function Be32(v: nat): (s: Bytes)
    requires Fits32(v)
    ensures |s| == 4
  {
    BigEndian(v, 4)
  }

  lemma Be32RoundTrip(v: nat)
    requires Fits32(v)
    ensures FromBigEndian(Be32(v)) == v
  {
    Word32();
    BigEndianRoundTrip(v, 4);
  }

  function WordAt(s: Bytes, at: nat): nat
    requires at + 4 <= |s|
  {
    FromBigEndian(s[at..at + 4])
  }

  // NUL-terminated strings and padding.

  predicate NulFree(name: Bytes) {
    0 !in name
  }

  /** The string that starts at `at`, if it is terminated. */
  function CString(s: Bytes, at: nat): (name: Option<Bytes>)
    ensures name.Some? ==> at + |name.value| < |s|
    decreases |s| - at
  {
    if at >= |s| then None
    else if s[at] == 0 then Some([])
    else match CString(s, at + 1)
      case None => None
      case Some(rest) => Some([s[at]] + rest)
  }

  lemma {:induction false} CStringReads(s: Bytes, at: nat, name: Bytes)
    requires at + |name| < |s| && s[at..at + |name|] == name && s[at + |name|] == 0
    requires NulFree(name)
    ensures CString(s, at) == Some(name)
    decreases |name|
  {
    if name != [] {
      assert s[at] == s[at..at + |name|][0] == name[0] && name[0] in name;
      assert s[at + 1..at + 1 + |name[1..]|] == s[at..at + |name|][1..];
      CStringReads(s, at + 1, name[1..]);
      assert name == [s[at]] + name[1..];
    }
  }

  /** How many zero bytes follow n bytes of data. */
  function Pad4(n: nat): (k: nat)
    ensures k < 4 && (n + k) % 4 == 0
  {
    (4 - n % 4) % 4
  }

  function Zeros(n: nat): (s: Bytes)
    ensures |s| == n
  {
    seq(n, _ => 0)
  }

  function Padded(data: Bytes): (s: Bytes)
    ensures |s| == 4 * ((|data| + 3) / 4)
  {
    data + Zeros(Pad4(|data|))
  }

  // The decoder.

  function Cons(e: Event, rest: Option<seq<Event>>): Option<seq<Event>> {
    match rest
    case None => None
    case Some(es) => Some([e] + es)
  }

  /** The tokens of a structure block up to FDT_END, with property names looked up in `strings`. */
  function Tokens(s: Bytes, strings: Bytes): Option<seq<Event>>
    decreases |s|
  {
    if |s| < 4 then None
    else
      var token, rest := WordAt(s, 0), s[4..];
      if token == FDT_END then (if rest == [] then Some([]) else None)
      else if token == FDT_NOP then Tokens(rest, strings)
      else if token == FDT_END_NODE then Cons(End, Tokens(rest, strings))
      else if token == FDT_BEGIN_NODE then BeginToken(s, strings)
      else if token == FDT_PROP then PropToken(s, strings)
      else None
  }

  function BeginToken(s: Bytes, strings: Bytes): Option<seq<Event>>
    requires |s| >= 4
    decreases |s|, 0
  {
    var rest := s[4..];
    match CString(rest, 0)
    case None => None
    case Some(name) =>
      var size := |name| + 1 + Pad4(|name| + 1);
      if size > |rest| then None else Cons(Begin(name), Tokens(rest[size..], strings))
  }

  function PropToken(s: Bytes, strings: Bytes): Option<seq<Event>>
    requires |s| >= 4
    decreases |s|, 0
  {
    var rest := s[4..];
    if |rest| < 8 then None
    else
      var len, nameOffset := WordAt(rest, 0), WordAt(rest, 4);
      var size := 8 + len + Pad4(len);
      if size > |rest| then None
      else match CString(strings, nameOffset)
        case None => None
        case Some(name) => Cons(Prop(Property(name, rest[8..8 + len])), Tokens(rest[size..], strings))
  }

  /** The leading properties of a token sequence. */
  function TakeProps(es: seq<Event>): (r: (seq<Property>, seq<Event>))
    ensures |r.1| <= |es|
  {
    if es != [] && es[0].Prop? then
      var (props, rest) := TakeProps(es[1..]);
      ([es[0].prop] + props, rest)
    else ([], es)
  }

  /** One node: its name, its properties, its subnodes and its end, and what follows it. */
  function ParseNode(es: seq<Event>): (r: Option<(Tree, seq<Event>)>)
    ensures r.Some? ==> |r.value.1| < |es|
    decreases |es|, 0
  {
    if es == [] || !es[0].Begin? then None
    else
      var (props, afterProps) := TakeProps(es[1..]);
      match ParseChildren(afterProps)
      case None => None
      case Some((children, rest)) =>
        if rest == [] || !rest[0].End? then None
        else Some((Node(es[0].name, props, children), rest[1..]))
  }

  function ParseChildren(es: seq<Event>): (r: Option<(seq<Tree>, seq<Event>)>)
    ensures r.Some? ==> |r.value.1| <= |es|
    decreases |es|, 1
  {
    if es == [] || !es[0].Begin? then Some(([], es))
    else match ParseNode(es)
      case None => None
      case Some((t, rest)) =>
        match ParseChildren(rest)
        case None => None
        case Some((ts, rest')) => Some(([t] + ts, rest'))
  }

  function ParseTree(es: seq<Event>): Option<Tree> {
    match ParseNode(es)
    case None => None
    case Some((t, rest)) => if rest == [] then Some(t) else None
  }

  /** The header's ten words, in order. */
  datatype Header = Header(
    magic: nat, totalSize: nat, offStruct: nat, offStrings: nat, offRsvmap: nat, version: nat,
    lastCompVersion: nat, bootCpuid: nat, sizeStrings: nat, sizeStruct: nat)

  function ReadHeader(blob: Bytes): Header
    requires |blob| >= 40
  {
    Header(WordAt(blob, 0), WordAt(blob, 4), WordAt(blob, 8), WordAt(blob, 12), WordAt(blob, 16),
           WordAt(blob, 20), WordAt(blob, 24), WordAt(blob, 28), WordAt(blob, 32), WordAt(blob, 36))
  }

  /** Two ranges of bytes do not overlap. */
  predicate Apart(a: nat, lengthA: nat, b: nat, lengthB: nat) {
    a + lengthA <= b || b + lengthB <= a
  }

  /** The blocks lie behind the header and within the blob, without overlap, each on its alignment. */
  predicate WellPlaced(h: Header) {
    && 40 <= h.offStruct && 40 <= h.offRsvmap && 40 <= h.offStrings
    && h.offStruct + h.sizeStruct <= h.totalSize
    && h.offRsvmap + 16 <= h.totalSize
    && h.offStrings + h.sizeStrings <= h.totalSize
    && Apart(h.offStruct, h.sizeStruct, h.offRsvmap, 16)
    && Apart(h.offStruct, h.sizeStruct, h.offStrings, h.sizeStrings)
    && Apart(h.offRsvmap, 16, h.offStrings, h.sizeStrings)
    && h.offStruct % 4 == 0 && h.sizeStruct % 4 == 0 && h.offRsvmap % 8 == 0
  }

  /** Decode a blob whose memory reservation block is empty. */
  function DecodeBlob(blob: Bytes): Option<Tree> {
    if |blob| < 40 then None
    else
      var h := ReadHeader(blob);
      if h.magic != FDT_MAGIC || h.version < FDT_VERSION || h.lastCompVersion > FDT_VERSION then None
      else if h.totalSize != |blob| || !WellPlaced(h) then None
      else if blob[h.offRsvmap..h.offRsvmap + 16] != Zeros(16) then None
      else
        var strings := blob[h.offStrings..h.offStrings + h.sizeStrings];
        match Tokens(blob[h.offStruct..h.offStruct + h.sizeStruct], strings)
        case None => None
        case Some(es) => ParseTree(es)
  }
}
