/**
 The layout the writer produces, and the round trip through the decoder.
 */
module FdtEncoding {
  import opened Bits
  import opened FdtFormat
  import opened Sequences

  type Name = Bytes

  // The string table: the names in order of first use, each terminated.

  function Flat(names: seq<Name>): Bytes {
    if names == [] then [] else Flat(names[..|names| - 1]) + names[|names| - 1] + [0]
  }

  /** No name is stored twice and each can be read back. */
  predicate TableOk(names: seq<Name>) {
    Distinct(names) && forall i | 0 <= i < |names| :: NulFree(names[i])
  }

  /** Where the k-th name starts. */
  function OffsetOf(names: seq<Name>, k: nat): nat
    requires k <= |names|
  {
    |Flat(names[..k])|
  }

  lemma FlatAppend(names: seq<Name>, name: Name)
    ensures Flat(names + [name]) == Flat(names) + name + [0]
  {
    assert (names + [name])[..|names|] == names;
  }

  /** The table up to a name is a prefix of the table. */
  lemma {:induction false} FlatPrefix(names: seq<Name>, k: nat)
    requires k < |names|
    ensures OffsetOf(names, k) + |names[k]| < |Flat(names)|
    ensures Flat(names)[OffsetOf(names, k)..OffsetOf(names, k) + |names[k]|] == names[k]
    ensures Flat(names)[OffsetOf(names, k) + |names[k]|] == 0
    ensures Flat(names)[..OffsetOf(names, k)] == Flat(names[..k])
  {
    var front := names[..|names| - 1];
    if k == |names| - 1 {
    } else {
      FlatPrefix(front, k);
      assert front[..k] == names[..k];
    }
  }

  /** A string once terminated in the table stays the same however the table grows. */
  lemma {:induction false} CStringGrows(s: Bytes, more: Bytes, at: nat)
    requires CString(s, at).Some?
    ensures CString(s + more, at) == CString(s, at)
    decreases |s| - at
  {
    if s[at] != 0 {
      CStringGrows(s, more, at + 1);
    }
  }

  /** An offset names its string, and goes on naming it however the table grows. */
  lemma {:induction false} OffsetNames(names: seq<Name>, more: seq<Name>, k: nat)
    requires k < |names| && NulFree(names[k])
    ensures OffsetOf(names + more, k) == OffsetOf(names, k)
    ensures CString(Flat(names + more), OffsetOf(names, k)) == Some(names[k])
  {
    FlatPrefix(names + more, k);
    assert (names + more)[..k] == names[..k];
    CStringReads(Flat(names + more), OffsetOf(names, k), names[k]);
  }

  lemma NextOffset(names: seq<Name>, k: nat)
    requires k < |names|
    ensures OffsetOf(names, k + 1) == OffsetOf(names, k) + |names[k]| + 1
  {
    assert names[..k + 1][..k] == names[..k];
  }

  /** Only the whole table reaches to the end of its bytes. */
  lemma OffsetsIncrease(names: seq<Name>, k: nat)
    requires k <= |names| && OffsetOf(names, k) >= |Flat(names)|
    ensures k == |names|
  {
    if k < |names| {
      FlatPrefix(names, k);
    }
  }

  function WithName(names: seq<Name>, name: Name): seq<Name> {
    if name in names then names else names + [name]
  }

  /** No name is stored twice, and every offset that named a string goes on naming it. */
  lemma NamesKept(names: seq<Name>, name: Name)
    requires TableOk(names) && NulFree(name)
    ensures TableOk(WithName(names, name)) && name in WithName(names, name)
    ensures forall at: nat | CString(Flat(names), at).Some? ::
              CString(Flat(WithName(names, name)), at) == CString(Flat(names), at)
  {
    if name !in names {
      FlatAppend(names, name);
      assert Flat(names + [name]) == Flat(names) + (name + [0]);
      forall at: nat | CString(Flat(names), at).Some?
        ensures CString(Flat(names + [name]), at) == CString(Flat(names), at)
      {
        CStringGrows(Flat(names), name + [0], at);
      }
    }
  }

  // The structure block.

  /** A token as it is written: a property refers to its name by offset. */
  datatype Item = BeginItem(name: Bytes) | PropItem(nameOffset: nat, data: Bytes) | EndItem
  {
    predicate Ok() {
      match this
      case BeginItem(name) => NulFree(name)
      case PropItem(nameOffset, data) => Fits32(nameOffset) && Fits32(|data|)
      case EndItem => true
    }

    /** With this string table, the item stands for the event e. */
    predicate Means(strings: Bytes, e: Event) {
      match this
      case BeginItem(name) => e == Begin(name)
      case PropItem(nameOffset, data) =>
        e.Prop? && e.prop.data == data && CString(strings, nameOffset) == Some(e.prop.name)
      case EndItem => e == End
    }
  }

  function Encode(i: Item): (s: Bytes)
    requires i.Ok()
  {
    match i
    case BeginItem(name) => Be32(FDT_BEGIN_NODE) + Padded(name + [0])
    case PropItem(nameOffset, data) => Be32(FDT_PROP) + Be32(|data|) + Be32(nameOffset) + Padded(data)
    case EndItem => Be32(FDT_END_NODE)
  }

  predicate AllOk(items: seq<Item>) {
    forall k | 0 <= k < |items| :: items[k].Ok()
  }

  predicate AllMean(strings: Bytes, items: seq<Item>, es: seq<Event>) {
    |items| == |es| && forall k | 0 <= k < |items| :: items[k].Means(strings, es[k])
  }

  /** All parts in order. */
  function Concat(parts: seq<Bytes>): Bytes {
    if parts == [] then [] else Concat(parts[..|parts| - 1]) + parts[|parts| - 1]
  }

  lemma ConcatAppend(parts: seq<Bytes>, part: Bytes)
    ensures Concat(parts + [part]) == Concat(parts) + part
  {
    assert (parts + [part])[..|parts|] == parts;
  }

  lemma {:induction false} ConcatFirst(parts: seq<Bytes>)
    requires parts != []
    ensures Concat(parts) == parts[0] + Concat(parts[1..])
  {
    if |parts| == 1 {
      assert parts[..0] == [] && parts[1..] == [];
    } else {
      var front := parts[..|parts| - 1];
      ConcatFirst(front);
      assert front[1..] == parts[1..][..|parts[1..]| - 1];
    }
  }

  lemma {:induction false} ConcatAligned(parts: seq<Bytes>)
    requires forall i | 0 <= i < |parts| :: |parts[i]| % 4 == 0
    ensures |Concat(parts)| % 4 == 0
  {
    if parts != [] {
      ConcatAligned(parts[..|parts| - 1]);
    }
  }

  function Parts(items: seq<Item>): (parts: seq<Bytes>)
    requires AllOk(items)
    ensures |parts| == |items|
  {
    seq(|items|, i requires 0 <= i < |items| => Encode(items[i]))
  }

  function EncodeAll(items: seq<Item>): Bytes
    requires AllOk(items)
  {
    Concat(Parts(items))
  }

  lemma EncodeAppend(items: seq<Item>, item: Item)
    requires AllOk(items) && item.Ok()
    ensures AllOk(items + [item])
    ensures EncodeAll(items + [item]) == EncodeAll(items) + Encode(item)
  {
    assert Parts(items + [item]) == Parts(items) + [Encode(item)];
    ConcatAppend(Parts(items), Encode(item));
  }

  lemma EncodeAligned(i: Item)
    requires i.Ok()
    ensures |Encode(i)| % 4 == 0
  {
    match i {
      case BeginItem(name) =>
        WholeWords(Encode(i), 1 + (|name| + 1 + 3) / 4);
      case PropItem(nameOffset, data) =>
        WholeWords(Encode(i), 3 + (|data| + 3) / 4);
      case EndItem =>
    }
  }

  /** The structure block consists of whole words. */
  lemma EncodeAllAligned(items: seq<Item>)
    requires AllOk(items)
    ensures |EncodeAll(items)| % 4 == 0
  {
    forall i | 0 <= i < |items|
      ensures |Parts(items)[i]| % 4 == 0
    {
      EncodeAligned(items[i]);
    }
    ConcatAligned(Parts(items));
  }

  lemma EncodeFirst(items: seq<Item>)
    requires AllOk(items) && items != []
    ensures EncodeAll(items) == Encode(items[0]) + EncodeAll(items[1..])
  {
    ConcatFirst(Parts(items));
    assert Parts(items)[1..] == Parts(items[1..]);
  }

  /** The bytes written, with property names looked up in the table, stand for the calls es. */
  ghost predicate Stands(written: Bytes, names: seq<Name>, es: seq<Event>) {
    exists items: seq<Item> :: Spells(items, written, Flat(names), es)
  }

  predicate Spells(items: seq<Item>, written: Bytes, strings: Bytes, es: seq<Event>) {
    AllOk(items) && written == EncodeAll(items) && AllMean(strings, items, es)
  }

  lemma NothingStands()
    ensures Stands([], [], [])
  {
    assert Spells([], [], Flat([]), []);
  }

  lemma StandsAppend(written: Bytes, names: seq<Name>, es: seq<Event>, item: Item, e: Event)
    requires Stands(written, names, es) && item.Ok() && item.Means(Flat(names), e)
    ensures Stands(written + Encode(item), names, es + [e])
  {
    var items: seq<Item> :| Spells(items, written, Flat(names), es);
    EncodeAppend(items, item);
    assert Spells(items + [item], written + Encode(item), Flat(names), es + [e]);
  }

  /** Adding a name to the table leaves the meaning of what is written alone. */
  lemma StandsWithName(written: Bytes, names: seq<Name>, es: seq<Event>, name: Name)
    requires Stands(written, names, es) && TableOk(names) && NulFree(name)
    ensures Stands(written, WithName(names, name), es)
  {
    var items: seq<Item> :| Spells(items, written, Flat(names), es);
    NamesKept(names, name);
    assert Spells(items, written, Flat(WithName(names, name)), es);
  }

  lemma Word0(v: nat, rest: Bytes)
    requires Fits32(v)
    ensures WordAt(Be32(v) + rest, 0) == v && (Be32(v) + rest)[4..] == rest
  {
    assert (Be32(v) + rest)[0..4] == Be32(v);
    Be32RoundTrip(v);
  }

  lemma ReadBegin(name: Bytes, rest: Bytes, strings: Bytes)
    requires NulFree(name)
    ensures Tokens(Be32(FDT_BEGIN_NODE) + Padded(name + [0]) + rest, strings)
         == Cons(Begin(name), Tokens(rest, strings))
  {
    var body := Padded(name + [0]) + rest;
    var s := Be32(FDT_BEGIN_NODE) + body;
    assert Be32(FDT_BEGIN_NODE) + Padded(name + [0]) + rest == s;
    Word0(FDT_BEGIN_NODE, body);
    assert body[0..|name|] == name && body[|name|] == 0;
    CStringReads(body, 0, name);
    assert body[|name| + 1 + Pad4(|name| + 1)..] == rest;
  }

  /** Two words and what follows them. */
  lemma TwoWords(v: nat, w: nat, rest: Bytes)
    requires Fits32(v) && Fits32(w)
    ensures var s := Be32(v) + Be32(w) + rest;
      WordAt(s, 0) == v && WordAt(s, 4) == w && s[8..] == rest
  {
    var s := Be32(v) + Be32(w) + rest;
    assert s[0..4] == Be32(v) && s[4..8] == Be32(w);
    Be32RoundTrip(v);
    Be32RoundTrip(w);
  }

  lemma ReadProp(prop: Property, offset: nat, rest: Bytes, strings: Bytes)
    requires Fits32(|prop.data|) && Fits32(offset) && CString(strings, offset) == Some(prop.name)
    ensures Tokens(Be32(FDT_PROP) + Be32(|prop.data|) + Be32(offset) + Padded(prop.data) + rest, strings)
         == Cons(Prop(prop), Tokens(rest, strings))
  {
    var len := |prop.data|;
    var body := Be32(len) + Be32(offset) + (Padded(prop.data) + rest);
    assert Be32(FDT_PROP) + Be32(len) + Be32(offset) + Padded(prop.data) + rest == Be32(FDT_PROP) + body;
    Word0(FDT_PROP, body);
    TwoWords(len, offset, Padded(prop.data) + rest);
    PropBody(prop.data, offset, rest);
    IsPropToken(Be32(FDT_PROP) + body, strings);
  }

  lemma IsPropToken(s: Bytes, strings: Bytes)
    requires |s| >= 4 && WordAt(s, 0) == FDT_PROP
    ensures Tokens(s, strings) == PropToken(s, strings)
  {
  }

  /** Where the bytes of a property are behind its token, and what follows them. */
  lemma PropBody(data: Bytes, offset: nat, rest: Bytes)
    requires Fits32(|data|) && Fits32(offset)
    ensures var body, len := Be32(|data|) + Be32(offset) + (Padded(data) + rest), |data|;
      body[8..8 + len] == data && body[8 + len + Pad4(len)..] == rest
  {
  }

  lemma {:induction false} ReadItem(i: Item, e: Event, rest: Bytes, strings: Bytes)
    requires i.Ok() && i.Means(strings, e)
    ensures Tokens(Encode(i) + rest, strings) == Cons(e, Tokens(rest, strings))
  {
    match i {
      case BeginItem(name) =>
        ReadBegin(name, rest, strings);
      case PropItem(nameOffset, data) =>
        ReadProp(e.prop, nameOffset, rest, strings);
      case EndItem =>
        Word0(FDT_END_NODE, rest);
    }
  }

  /** Reading back the tokens of a structure block gives the events it was written for. */
  lemma {:induction false} TokensRoundTrip(items: seq<Item>, es: seq<Event>, strings: Bytes)
    requires AllOk(items) && AllMean(strings, items, es)
    ensures Tokens(EncodeAll(items) + Be32(FDT_END), strings) == Some(es)
    decreases |items|
  {
    if items == [] {
      Word0(FDT_END, []);
      assert Be32(FDT_END) + [] == EncodeAll(items) + Be32(FDT_END);
    } else {
      var rest := EncodeAll(items[1..]) + Be32(FDT_END);
      EncodeFirst(items);
      assert EncodeAll(items) + Be32(FDT_END) == Encode(items[0]) + rest;
      TokensRoundTrip(items[1..], es[1..], strings);
      ReadItem(items[0], es[0], rest, strings);
      assert es == [es[0]] + es[1..];
    }
  }

  // Trees.

  function PropEvents(props: seq<Property>): seq<Event> {
    if props == [] then [] else [Prop(props[0])] + PropEvents(props[1..])
  }

  /** The calls that describe a tree: begin_node, its properties, its subnodes, end_node. */
  function Flatten(t: Tree): (es: seq<Event>)
    decreases t
  {
    [Begin(t.name)] + PropEvents(t.props) + FlattenAll(t.children) + [End]
  }

  function FlattenAll(ts: seq<Tree>): seq<Event>
    decreases ts
  {
    if ts == [] then [] else Flatten(ts[0]) + FlattenAll(ts[1..])
  }

  lemma {:induction false} TakePropsOf(props: seq<Property>, rest: seq<Event>)
    requires rest == [] || !rest[0].Prop?
    ensures TakeProps(PropEvents(props) + rest) == (props, rest)
  {
    var es := PropEvents(props) + rest;
    if props == [] {
      assert es == rest;
    } else {
      assert es[1..] == PropEvents(props[1..]) + rest;
      TakePropsOf(props[1..], rest);
      assert props == [props[0]] + props[1..];
    }
  }

  /** Parsing the calls that describe a tree gives the tree back, whatever follows. */
  lemma {:induction false} ParseFlatten(t: Tree, rest: seq<Event>)
    ensures ParseNode(Flatten(t) + rest) == Some((t, rest))
    decreases t
  {
    var es := Flatten(t) + rest;
    var afterProps := FlattenAll(t.children) + ([End] + rest);
    assert es[1..] == PropEvents(t.props) + afterProps;
    if t.children != [] {
      assert afterProps[0] == Flatten(t.children[0])[0] == Begin(t.children[0].name);
    }
    TakePropsOf(t.props, afterProps);
    ParseFlattenAll(t.children, [End] + rest);
    assert ([End] + rest)[1..] == rest;
  }

  lemma {:induction false} ParseFlattenAll(ts: seq<Tree>, rest: seq<Event>)
    requires rest != [] && rest[0].End?
    ensures ParseChildren(FlattenAll(ts) + rest) == Some((ts, rest))
    decreases ts
  {
    if ts == [] {
      assert FlattenAll(ts) + rest == rest;
    } else {
      var head, after := Flatten(ts[0]), FlattenAll(ts[1..]) + rest;
      assert FlattenAll(ts) + rest == head + after;
      ParseFlatten(ts[0], after);
      ParseFlattenAll(ts[1..], rest);
      assert head[0] == Begin(ts[0].name) && (head + after)[0] == head[0];
      assert ts == [ts[0]] + ts[1..];
    }
  }

  lemma ParseWholeTree(t: Tree)
    ensures ParseTree(Flatten(t)) == Some(t)
  {
    var rest: seq<Event> := [];
    var es := Flatten(t) + rest;
    ParseFlatten(t, rest);
    assert es == Flatten(t);
  }

  // The blob.

  function Align8(n: nat): (m: nat)
    ensures m % 8 == 0 && n <= m < n + 8
  {
    8 * ((n + 7) / 8)
  }

  function HeaderFor(sizeStruct: nat, sizeStrings: nat): Header {
    var offRsvmap := Align8(40 + sizeStruct);
    var offStrings := offRsvmap + 16;
    Header(FDT_MAGIC, Align8(offStrings + sizeStrings), 40, offStrings, offRsvmap, FDT_VERSION,
           FDT_LAST_COMP_VERSION, 0, sizeStrings, sizeStruct)
  }

  function HeaderWords(h: Header): seq<nat> {
    [h.magic, h.totalSize, h.offStruct, h.offStrings, h.offRsvmap, h.version, h.lastCompVersion, h.bootCpuid,
     h.sizeStrings, h.sizeStruct]
  }

  function Words(ws: seq<nat>): (s: Bytes)
    requires forall i | 0 <= i < |ws| :: Fits32(ws[i])
    ensures |s| == 4 * |ws|
  {
    if ws == [] then [] else Words(ws[..|ws| - 1]) + Be32(ws[|ws| - 1])
  }

  lemma {:induction false} WordsAt(ws: seq<nat>, rest: Bytes, i: nat)
    requires forall i | 0 <= i < |ws| :: Fits32(ws[i])
    requires i < |ws|
    ensures WordAt(Words(ws) + rest, 4 * i) == ws[i]
  {
    var front, last := ws[..|ws| - 1], Be32(ws[|ws| - 1]);
    assert Words(ws) + rest == Words(front) + (last + rest);
    if i == |ws| - 1 {
      assert (Words(front) + (last + rest))[4 * i..4 * i + 4] == last;
      Be32RoundTrip(ws[i]);
    } else {
      WordsAt(front, last + rest, i);
    }
  }

  predicate BlobFits(structBlock: Bytes, strings: Bytes) {
    |structBlock| % 4 == 0 && Fits32(HeaderFor(|structBlock|, |strings|).totalSize)
  }

  /** Structure block, padding, empty reservation map, string table, padding. */
  function Blocks(structBlock: Bytes, strings: Bytes): Bytes {
    var h := HeaderFor(|structBlock|, |strings|);
    structBlock + Zeros(h.offRsvmap - 40 - |structBlock|) + Zeros(16) + strings
    + Zeros(h.totalSize - h.offStrings - |strings|)
  }

  lemma LayoutOfBlocks(structBlock: Bytes, strings: Bytes, blob: Bytes)
    requires BlobFits(structBlock, strings)
    requires |blob| == HeaderFor(|structBlock|, |strings|).totalSize
    requires blob[..40] == Words(HeaderWords(HeaderFor(|structBlock|, |strings|)))
    requires blob[40..] == Blocks(structBlock, strings)
    ensures blob == Layout(structBlock, strings)
  {
    Halves(blob, Words(HeaderWords(HeaderFor(|structBlock|, |strings|))), Blocks(structBlock, strings));
  }

  lemma Halves(s: Bytes, a: Bytes, b: Bytes)
    requires |a| <= |s| && s[..|a|] == a && s[|a|..] == b
    ensures s == a + b
  {
  }

  lemma WholeWords(data: Bytes, words: nat)
    requires |data| == 4 * words
    ensures |data| % 4 == 0
  {
  }

  lemma HeaderWordsFit(sizeStruct: nat, sizeStrings: nat)
    requires Fits32(HeaderFor(sizeStruct, sizeStrings).totalSize)
    ensures forall i | 0 <= i < 10 :: Fits32(HeaderWords(HeaderFor(sizeStruct, sizeStrings))[i])
  {
    var h := HeaderFor(sizeStruct, sizeStrings);
    assert h.sizeStruct <= h.offRsvmap <= h.offStrings <= h.totalSize;
    assert h.sizeStrings <= h.totalSize;
  }

  /** Header, structure block, padding, empty reservation map, string table, padding. */
  function Layout(structBlock: Bytes, strings: Bytes): (blob: Bytes)
    requires BlobFits(structBlock, strings)
    ensures |blob| == HeaderFor(|structBlock|, |strings|).totalSize
  {
    var h := HeaderFor(|structBlock|, |strings|);
    Words(HeaderWords(h)) + structBlock + Zeros(h.offRsvmap - 40 - |structBlock|) + Zeros(16) + strings
    + Zeros(h.totalSize - h.offStrings - |strings|)
  }

  lemma HeaderReads(structBlock: Bytes, strings: Bytes)
    requires BlobFits(structBlock, strings)
    ensures ReadHeader(Layout(structBlock, strings)) == HeaderFor(|structBlock|, |strings|)
  {
    var h := HeaderFor(|structBlock|, |strings|);
    var ws := HeaderWords(h);
    var rest := Layout(structBlock, strings)[40..];
    assert Layout(structBlock, strings) == Words(ws) + rest;
    WordsAt(ws, rest, 0);
    WordsAt(ws, rest, 1);
    WordsAt(ws, rest, 2);
    WordsAt(ws, rest, 3);
    WordsAt(ws, rest, 4);
    WordsAt(ws, rest, 5);
    WordsAt(ws, rest, 6);
    WordsAt(ws, rest, 7);
    WordsAt(ws, rest, 8);
    WordsAt(ws, rest, 9);
  }

  /** Offsets and sizes in the header delimit the blocks, which are disjoint and aligned. */
  lemma LayoutBlocks(structBlock: Bytes, strings: Bytes)
    requires BlobFits(structBlock, strings)
    ensures var h, blob := HeaderFor(|structBlock|, |strings|), Layout(structBlock, strings);
      && WellPlaced(h) && h.offStrings % 8 == 0 && h.totalSize % 8 == 0
      && blob[h.offStruct..h.offStruct + h.sizeStruct] == structBlock
      && blob[h.offRsvmap..h.offRsvmap + 16] == Zeros(16)
      && blob[h.offStrings..h.offStrings + h.sizeStrings] == strings
  {
  }

  /** Decoding a laid-out blob decodes the structure block it was laid out from. */
  lemma {:induction false} LayoutDecodes(structBlock: Bytes, strings: Bytes)
    requires BlobFits(structBlock, strings)
    ensures DecodeBlob(Layout(structBlock, strings))
         == match Tokens(structBlock, strings)
            case None => None
            case Some(es) => ParseTree(es)
  {
    HeaderReads(structBlock, strings);
    LayoutBlocks(structBlock, strings);
  }

  /**
   The device tree round trip: a blob laid out from bytes that stand for the calls that describe a
   tree decodes to that tree.
   */
  lemma {:induction false} BlobRoundTrip(written: Bytes, names: seq<Name>, t: Tree)
    requires Stands(written, names, Flatten(t))
    requires BlobFits(written + Be32(FDT_END), Flat(names))
    ensures DecodeBlob(Layout(written + Be32(FDT_END), Flat(names))) == Some(t)
  {
    var items: seq<Item> :| Spells(items, written, Flat(names), Flatten(t));
    TokensRoundTrip(items, Flatten(t), Flat(names));
    ParseWholeTree(t);
    LayoutDecodes(written + Be32(FDT_END), Flat(names));
  }
}
