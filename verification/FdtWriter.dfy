/**
 The device tree writer: a growing table of structure-block words and a growing table of property
 names. Its ghost state is the sequence of calls made so far; Valid() says that the bytes written
 stand for it.
 */
module FdtWriter {
  import opened Bits
  import opened FdtFormat
  import opened FdtEncoding

  /** Open nodes after a sequence of calls. */
  function Depth(es: seq<Event>): int {
    if es == [] then 0
    else Depth(es[..|es| - 1]) + Deeper(es[|es| - 1])
  }

  function Deeper(e: Event): int {
    match e
    case Begin(_) => 1
    case Prop(_) => 0
    case End => -1
  }

  /** Lengths and positions are counted in an int. */
  predicate FitsInt(v: nat) {
    v < 0x8000_0000
  }

  // Words and name bytes that calls take at most.

  function BeginWords(name: Bytes): nat {
    1 + (|name| + 1 + 3) / 4
  }

  function PropWords(data: Bytes): nat {
    3 + (|data| + 3) / 4
  }

  function WordsOf(e: Event): nat {
    match e
    case Begin(name) => BeginWords(name)
    case Prop(prop) => PropWords(prop.data)
    case End => 1
  }

  function NameBytesOf(e: Event): nat {
    if e.Prop? then |e.prop.name| + 1 else 0
  }

  function AllWords(es: seq<Event>): nat {
    if es == [] then 0 else AllWords(es[..|es| - 1]) + WordsOf(es[|es| - 1])
  }

  function AllNameBytes(es: seq<Event>): nat {
    if es == [] then 0 else AllNameBytes(es[..|es| - 1]) + NameBytesOf(es[|es| - 1])
  }

  lemma PrefixStep(es: seq<Event>, i: nat)
    requires i < |es|
    ensures es[..i + 1] == es[..i] + [es[i]]
    ensures AllWords(es[..i + 1]) == AllWords(es[..i]) + WordsOf(es[i])
    ensures AllNameBytes(es[..i + 1]) == AllNameBytes(es[..i]) + NameBytesOf(es[i])
    ensures AllNameBytes(es[..i]) <= AllNameBytes(es)
  {
    assert es[..i + 1][..i] == es[..i];
    NameBytesGrow(es, i);
  }

  lemma {:induction false} NameBytesGrow(es: seq<Event>, i: nat)
    requires i <= |es|
    ensures AllNameBytes(es[..i]) <= AllNameBytes(es)
    decreases |es| - i
  {
    if i < |es| {
      assert es[..i + 1][..i] == es[..i];
      NameBytesGrow(es, i + 1);
    } else {
      assert es[..i] == es;
    }
  }

  /** A call with C strings and int lengths. */
  predicate Fit(e: Event) {
    match e
    case Begin(name) => NulFree(name)
    case Prop(prop) => NulFree(prop.name) && FitsInt(|prop.data|)
    case End => true
  }

  /** The size of a blob with that many words and name bytes. */
  function BlobSize(words: nat, nameBytes: nat): nat {
    HeaderFor(4 * words + 4, nameBytes).totalSize
  }

  lemma BlobSizeMonotone(words: nat, nameBytes: nat, more: nat)
    requires nameBytes <= more
    ensures BlobSize(words, nameBytes) <= BlobSize(words, more)
  {
    var offStrings := HeaderFor(4 * words + 4, nameBytes).offStrings;
    Align8Monotone(offStrings + nameBytes, offStrings + more);
  }

  lemma Align8Monotone(n: nat, m: nat)
    requires n <= m
    ensures Align8(n) <= Align8(m)
  {
  }

  /** Room for a block of size new, at least half as much again as before. */
  function Grown(size: nat, needed: nat): (n: nat)
    ensures n >= needed
  {
    if size * 3 / 2 < needed then needed else size * 3 / 2
  }

  method Realloc(a: array<byte>, used: nat, size: nat) returns (b: array<byte>)
    requires used <= a.Length && used <= size
    ensures fresh(b) && b.Length == size && b[..used] == a[..used]
  {
    b := new byte[size](_ => 0);
    for i := 0 to used
      invariant b[..i] == a[..i]
    {
      b[i] := a[i];
    }
  }

  /** memcpy to a[at..] */
  method Copy(a: array<byte>, at: nat, data: Bytes)
    requires at + |data| <= a.Length
    modifies a
    ensures a[..] == old(a[..at]) + data + old(a[at + |data|..])
  {
    for i := 0 to |data|
      invariant a[..at] == old(a[..at])
      invariant a[at..at + i] == data[..i]
      invariant a[at + i..] == old(a[at + i..])
    {
      a[at + i] := data[i];
      assert a[at..at + i + 1] == a[at..at + i] + [data[i]];
    }
    assert a[..] == a[..at] + a[at..at + |data|] + a[at + |data|..];
  }

  /** memset of n bytes of a to zero */
  method Clear(a: array<byte>, at: nat, n: nat)
    requires at + n <= a.Length
    modifies a
    ensures a[..] == old(a[..at]) + Zeros(n) + old(a[at + n..])
  {
    for i := 0 to n
      invariant a[..at] == old(a[..at])
      invariant a[at..at + i] == Zeros(i)
      invariant a[at + i..] == old(a[at + i..])
    {
      a[at + i] := 0;
      assert a[at..at + i + 1] == a[at..at + i] + [0];
    }
    assert a[..] == a[..at] + a[at..at + n] + a[at + n..];
  }

  /** Append data to the first pos bytes of a. */
  method AppendTo(a: array<byte>, pos: nat, data: Bytes) returns (end: nat)
    requires pos + |data| <= a.Length
    modifies a
    ensures end == pos + |data|
    ensures a[..end] == old(a[..pos]) + data && forall i | end <= i < a.Length :: a[i] == old(a[i])
  {
    ghost var rest := a[pos + |data|..];
    Copy(a, pos, data);
    end := pos + |data|;
    assert a[end..] == rest;
  }

  /** Append zeros up to a multiple of 8. */
  method AlignTo8(a: array<byte>, pos: nat) returns (end: nat)
    requires Align8(pos) <= a.Length
    modifies a
    ensures end == Align8(pos)
    ensures a[..end] == old(a[..pos]) + Zeros(end - pos) && forall i | end <= i < a.Length :: a[i] == old(a[i])
  {
    end := pos;
    while end % 8 != 0
      invariant pos <= end <= Align8(pos)
      invariant a[..end] == old(a[..pos]) + Zeros(end - pos) && forall i | end <= i < a.Length :: a[i] == old(a[i])
      decreases Align8(pos) - end
    {
      a[end] := 0;
      end := end + 1;
      assert a[..end] == a[..end - 1] + [0];
    }
  }

  method AppendAligned(a: array<byte>, pos: nat, data: Bytes) returns (end: nat)
    requires Align8(pos + |data|) <= a.Length
    modifies a
    ensures end == Align8(pos + |data|)
    ensures a[..end] == old(a[..pos]) + (data + Zeros(end - pos - |data|))
    ensures forall i | end <= i < a.Length :: a[i] == old(a[i])
  {
    end := AppendTo(a, pos, data);
    end := AlignTo8(a, end);
  }

  /** Store header word k; the words before it are in place. */
  method StoreWord(a: array<byte>, ws: seq<nat>, k: nat)
    requires forall i | 0 <= i < |ws| :: Fits32(ws[i])
    requires k < |ws| && 4 * k + 4 <= a.Length && a[..4 * k] == Words(ws[..k])
    modifies a
    ensures a[..4 * k + 4] == Words(ws[..k + 1]) && forall i | 4 * k + 4 <= i < a.Length :: a[i] == old(a[i])
  {
    ghost var rest := a[4 * k + 4..];
    Copy(a, 4 * k, Be32(ws[k]));
    assert a[4 * k + 4..] == rest;
    assert ws[..k + 1][..k] == ws[..k];
  }

  /** Store the ten header fields. */
  method StoreHeader(a: array<byte>, h: Header)
    requires 40 <= a.Length && forall i | 0 <= i < 10 :: Fits32(HeaderWords(h)[i])
    modifies a
    ensures a[..40] == Words(HeaderWords(h)) && forall i | 40 <= i < a.Length :: a[i] == old(a[i])
  {
    var ws := HeaderWords(h);
    for k := 0 to 10
      invariant a[..4 * k] == Words(ws[..k]) && forall i | 40 <= i < a.Length :: a[i] == old(a[i])
    {
      StoreWord(a, ws, k);
    }
    assert ws[..10] == ws;
  }

  class FdtState {
    var tab: array<byte>
    var tabLen: nat
    var openNodeCount: int
    var stringTable: array<byte>
    var stringTableLen: nat

    ghost var names: seq<Name>
    ghost var events: seq<Event>

    /** The structure block so far is within its buffer, which is counted in words. */
    predicate TabOk()
      reads this`tab, this`tabLen
    {
      tab.Length % 4 == 0 && 4 * tabLen <= tab.Length
    }

    predicate StringTableOk()
      reads this`stringTable, this`stringTableLen
    {
      stringTableLen <= stringTable.Length
    }

    function Written(): Bytes
      requires TabOk()
      reads this`tab, this`tabLen, tab
    {
      tab[..4 * tabLen]
    }

    function Strings(): Bytes
      requires StringTableOk()
      reads this`stringTable, this`stringTableLen, stringTable
    {
      stringTable[..stringTableLen]
    }

    ghost predicate StringsValid()
      reads this`stringTable, this`stringTableLen, this`names, stringTable
    {
      StringTableOk() && Strings() == Flat(names) && TableOk(names)
    }

    ghost predicate Valid()
      reads this, tab, stringTable
    {
      && tab != stringTable
      && TabOk() && StringsValid()
      && Stands(Written(), names, events)
      && openNodeCount == Depth(events)
    }

    constructor ()
      ensures Valid() && events == [] && names == [] && fresh(tab) && fresh(stringTable)
    {
      tab := new byte[0];
      stringTable := new byte[0];
      tabLen, openNodeCount, stringTableLen := 0, 0, 0;
      names, events := [], [];
      NothingStands();
    }

    method AllocLen(len: nat)
      requires TabOk()
      modifies this`tab
      ensures TabOk() && 4 * len <= tab.Length && Written() == old(Written())
      ensures fresh({tab} - old({tab}))
    {
      if len > tab.Length / 4 {
        var newSize := Grown(tab.Length / 4, len);
        tab := Realloc(tab, 4 * tabLen, 4 * newSize);
      }
    }

    /** Append one big-endian word. */
    method Put32(v: nat)
      requires TabOk() && Fits32(v)
      modifies this`tab, this`tabLen, tab
      ensures TabOk() && Written() == old(Written()) + Be32(v)
      ensures fresh({tab} - old({tab})) && tabLen == old(tabLen) + 1
    {
      AllocLen(tabLen + 1);
      Copy(tab, 4 * tabLen, Be32(v));
      tabLen := tabLen + 1;
    }

    /** Append bytes, padded with zeros to whole words. */
    method PutData(data: Bytes)
      requires TabOk()
      modifies this`tab, this`tabLen, tab
      ensures TabOk() && Written() == old(Written()) + Padded(data)
      ensures fresh({tab} - old({tab})) && tabLen == old(tabLen) + (|data| + 3) / 4
    {
      var len1 := (|data| + 3) / 4;
      AllocLen(tabLen + len1);
      Copy(tab, 4 * tabLen, data);
      Clear(tab, 4 * tabLen + |data|, Pad4(|data|));
      tabLen := tabLen + len1;
      assert 4 * len1 == |data| + Pad4(|data|);
    }

    /** strlen of the table string at pos */
    method StringLength(pos: nat) returns (n: nat)
      requires StringTableOk() && CString(Strings(), pos).Some?
      ensures n == |CString(Strings(), pos).value|
    {
      n := 0;
      while stringTable[pos + n] != 0
        invariant CString(Strings(), pos + n).Some?
        invariant n + |CString(Strings(), pos + n).value| == |CString(Strings(), pos).value|
        decreases stringTableLen - (pos + n)
      {
        assert Strings()[pos + n] == stringTable[pos + n];
        n := n + 1;
      }
      assert Strings()[pos + n] == stringTable[pos + n];
    }

    /** strcmp of the table string at pos with a NUL-free name */
    method StringEquals(pos: nat, name: Name) returns (equal: bool)
      requires StringTableOk() && CString(Strings(), pos).Some? && NulFree(name)
      ensures equal == (CString(Strings(), pos).value == name)
    {
      var n := 0;
      while n < |name| && stringTable[pos + n] == name[n]
        invariant n <= |name|
        invariant CString(Strings(), pos + n).Some?
        invariant (CString(Strings(), pos).value == name) == (CString(Strings(), pos + n).value == name[n..])
        decreases |name| - n
      {
        assert Strings()[pos + n] == stringTable[pos + n];
        assert name[n] in name;
        assert name[n..] == [name[n]] + name[n + 1..];
        n := n + 1;
      }
      assert Strings()[pos + n] == stringTable[pos + n];
      equal := n == |name| && stringTable[pos + n] == 0;
      if n < |name| {
        assert name[n] in name && name[n..][0] == name[n];
      } else {
        assert name[n..] == [];
      }
    }

    /** Append a terminated string to the table. */
    method AddString(name: Name)
      requires StringsValid() && NulFree(name) && name !in names
      modifies this`stringTable, this`stringTableLen, this`names, stringTable
      ensures StringsValid() && fresh({stringTable} - old({stringTable}))
      ensures names == old(names) + [name] && stringTableLen == old(stringTableLen) + |name| + 1
    {
      NamesKept(names, name);
      FlatAppend(names, name);
      AppendString(name + [0]);
      names := names + [name];
    }

    method AppendString(data: Bytes)
      requires StringTableOk()
      modifies this`stringTable, this`stringTableLen, stringTable
      ensures StringTableOk() && stringTableLen == old(stringTableLen) + |data|
      ensures Strings() == old(Strings()) + data
      ensures fresh({stringTable} - old({stringTable}))
    {
      ReserveStrings(stringTableLen + |data|);
      Copy(stringTable, stringTableLen, data);
      stringTableLen := stringTableLen + |data|;
    }

    method ReserveStrings(newLen: nat)
      requires StringTableOk() && stringTableLen <= newLen
      modifies this`stringTable
      ensures StringTableOk() && newLen <= stringTable.Length && Strings() == old(Strings())
      ensures fresh({stringTable} - old({stringTable}))
    {
      if newLen > stringTable.Length {
        stringTable := Realloc(stringTable, stringTableLen, Grown(stringTable.Length, newLen));
      }
    }

    /** Search the table for a name; pos is its offset, or the end of the table. */
    method FindString(name: Name) returns (found: bool, pos: nat)
      requires StringsValid() && NulFree(name)
      ensures found == (name in names)
      ensures found ==> CString(Strings(), pos) == Some(name) && pos < stringTableLen
      ensures !found ==> pos == stringTableLen
    {
      pos, found := 0, false;
      ghost var k := 0;
      assert names[..|names|] == names;
      while pos < stringTableLen
        invariant k <= |names| && pos == OffsetOf(names, k)
        invariant forall i | 0 <= i < k :: names[i] != name
        decreases |names| - k
      {
        OffsetNames(names, [], k);
        assert names + [] == names;
        var equal := StringEquals(pos, name);
        if equal {
          return true, pos;
        }
        var n := StringLength(pos);
        pos := pos + n + 1;
        NextOffset(names, k);
        k := k + 1;
      }
      OffsetsIncrease(names, k);
    }

    /** The offset of a property name, which is added if it is not there yet. */
    method GetStringOffset(name: Name) returns (pos: nat)
      requires StringsValid() && NulFree(name)
      modifies this`stringTable, this`stringTableLen, this`names, stringTable
      ensures StringsValid() && fresh({stringTable} - old({stringTable}))
      ensures names == WithName(old(names), name)
      ensures CString(Flat(names), pos) == Some(name) && pos <= old(stringTableLen)
      ensures stringTableLen <= old(stringTableLen) + |name| + 1
    {
      var found: bool;
      found, pos := FindString(name);
      if !found {
        FlatAppend(names, name);
        AddString(name);
        CStringReads(Flat(names), pos, name);
      }
    }

    method BeginNode(name: Bytes)
      requires Valid() && NulFree(name)
      modifies this`tab, this`tabLen, this`openNodeCount, this`events, tab
      ensures Valid() && events == old(events) + [Begin(name)] && tabLen == old(tabLen) + BeginWords(name)
      ensures fresh({tab} - old({tab}))
    {
      ghost var before := Written();
      Put32(FDT_BEGIN_NODE);
      PutData(name + [0]);
      openNodeCount := openNodeCount + 1;
      JoinTwo(before, Be32(FDT_BEGIN_NODE), Padded(name + [0]));
      Record(before, BeginItem(name), Begin(name));
    }

    method EndNode()
      requires Valid()
      modifies this`tab, this`tabLen, this`openNodeCount, this`events, tab
      ensures Valid() && events == old(events) + [End] && tabLen == old(tabLen) + 1
      ensures fresh({tab} - old({tab}))
    {
      ghost var before := Written();
      Put32(FDT_END_NODE);
      openNodeCount := openNodeCount - 1;
      Record(before, EndItem, End);
    }

    /** What was written last stands for the call e. */
    ghost method Record(before: Bytes, item: Item, e: Event)
      requires tab != stringTable && TabOk() && StringsValid() && item.Ok() && item.Means(Flat(names), e)
      requires Stands(before, names, events) && Written() == before + Encode(item)
      requires openNodeCount == Depth(events) + Deeper(e)
      modifies this`events
      ensures Valid() && events == old(events) + [e]
    {
      StandsAppend(before, names, events, item, e);
      DepthAppend(events, e);
      events := events + [e];
    }

    method PropStart(length: nat)
      requires TabOk() && FitsInt(length)
      modifies this`tab, this`tabLen, tab
      ensures TabOk() && Written() == old(Written()) + Be32(FDT_PROP) + Be32(length)
      ensures fresh({tab} - old({tab})) && tabLen == old(tabLen) + 2
    {
      Put32(FDT_PROP);
      Put32(length);
    }

    /** Token, length and name offset of a property. */
    method PropHeader(name: Name, length: nat) returns (pos: nat)
      requires tab != stringTable && TabOk() && StringsValid()
      requires NulFree(name) && FitsInt(length) && FitsInt(stringTableLen)
      modifies this`tab, this`tabLen, this`stringTable, this`stringTableLen, this`names, tab, stringTable
      ensures tab != stringTable && TabOk() && StringsValid() && names == WithName(old(names), name)
      ensures Fits32(pos) && CString(Flat(names), pos) == Some(name)
      ensures tabLen == old(tabLen) + 3 && stringTableLen <= old(stringTableLen) + |name| + 1
      ensures Written() == old(Written()) + (Be32(FDT_PROP) + Be32(length) + Be32(pos))
      ensures fresh({tab} - old({tab})) && fresh({stringTable} - old({stringTable}))
    {
      ghost var before := Written();
      PropStart(length);
      ghost var started := Written();
      pos := GetStringOffset(name);
      assert Written() == started;
      Put32(pos);
      JoinThree(before, Be32(FDT_PROP), Be32(length), Be32(pos));
    }

    method AddProp(name: Name, data: Bytes)
      requires Valid() && NulFree(name) && FitsInt(|data|) && FitsInt(stringTableLen)
      modifies this, tab, stringTable
      ensures Valid() && events == old(events) + [Prop(Property(name, data))]
      ensures names == WithName(old(names), name)
      ensures tabLen == old(tabLen) + PropWords(data) && stringTableLen <= old(stringTableLen) + |name| + 1
      ensures fresh({tab} - old({tab})) && fresh({stringTable} - old({stringTable}))
    {
      ghost var before := Written();
      StandsWithName(before, names, events, name);
      var pos := PropHeader(name, |data|);
      PutData(data);
      RecordProp(before, pos, name, data);
    }

    ghost method RecordProp(before: Bytes, pos: nat, name: Name, data: Bytes)
      requires tab != stringTable && TabOk() && StringsValid() && Fits32(pos) && Fits32(|data|)
      requires CString(Flat(names), pos) == Some(name)
      requires Stands(before, names, events)
      requires Written() == before + (Be32(FDT_PROP) + Be32(|data|) + Be32(pos)) + Padded(data)
      requires openNodeCount == Depth(events)
      modifies this`events
      ensures Valid() && events == old(events) + [Prop(Property(name, data))]
    {
      JoinTwo(before, Be32(FDT_PROP) + Be32(|data|) + Be32(pos), Padded(data));
      Record(before, PropItem(pos, data), Prop(Property(name, data)));
    }

    /** A property made of 32-bit cells. */
    method AddPropTabU32(name: Name, cells: seq<nat>)
      requires Valid() && NulFree(name) && FitsInt(4 * |cells|) && FitsInt(stringTableLen)
      requires forall i | 0 <= i < |cells| :: Fits32(cells[i])
      modifies this, tab, stringTable
      ensures Valid() && events == old(events) + [Prop(Property(name, Words(cells)))]
      ensures names == WithName(old(names), name)
      ensures fresh({tab} - old({tab})) && fresh({stringTable} - old({stringTable}))
    {
      AddCells(name, cells, Words(cells));
    }

    /** data is what the cells look like in bytes. */
    method AddCells(name: Name, cells: seq<nat>, ghost data: Bytes)
      requires Valid() && NulFree(name) && FitsInt(|data|) && FitsInt(stringTableLen)
      requires |data| == 4 * |cells| && IsCells(data, cells)
      modifies this, tab, stringTable
      ensures Valid() && events == old(events) + [Prop(Property(name, data))]
      ensures names == WithName(old(names), name)
      ensures fresh({tab} - old({tab})) && fresh({stringTable} - old({stringTable}))
    {
      ghost var before := Written();
      StandsWithName(before, names, events, name);
      var pos := PropHeader(name, 4 * |cells|);
      PutCells(cells, data);
      RecordProp(before, pos, name, data);
    }

    /**
     Write the blob to dst and return its size: header, structure block, padding, an empty
     reservation map, the string table, padding.
     */
    method Output(dst: array<byte>) returns (pos: nat)
      requires openNodeCount == 0 && TabOk() && StringTableOk()
      requires tab != stringTable && dst != tab && dst != stringTable
      requires FitsInt(BlobSize(tabLen, stringTableLen)) && BlobSize(tabLen, stringTableLen) <= dst.Length
      modifies this`tab, this`tabLen, tab, dst
      ensures pos == BlobSize(old(tabLen), stringTableLen)
      ensures BlobFits(old(Written()) + Be32(FDT_END), old(Strings()))
      ensures dst[..pos] == Layout(old(Written()) + Be32(FDT_END), old(Strings()))
      ensures forall i | pos <= i < dst.Length :: dst[i] == old(dst[i])
    {
      ghost var structBlock := Written() + Be32(FDT_END);
      Put32(FDT_END);
      assert Written() == structBlock && 4 * tabLen == |structBlock|;
      pos := OutputBlob(dst);
    }

    /** When the calls so far describe a tree, the blob decodes to that tree. */
    method OutputTree(dst: array<byte>, ghost t: Tree) returns (pos: nat)
      requires Valid() && openNodeCount == 0 && dst != tab && dst != stringTable
      requires FitsInt(BlobSize(tabLen, stringTableLen)) && BlobSize(tabLen, stringTableLen) <= dst.Length
      requires events == Flatten(t)
      modifies this`tab, this`tabLen, tab, dst
      ensures pos <= dst.Length && DecodeBlob(dst[..pos]) == Some(t)
      ensures forall i | pos <= i < dst.Length :: dst[i] == old(dst[i])
    {
      ghost var written, strings := Written(), Strings();
      pos := Output(dst);
      BlobRoundTrip(written, names, t);
    }

    /** What Output does once the structure block is complete. */
    method OutputBlob(dst: array<byte>) returns (pos: nat)
      requires TabOk() && StringTableOk() && dst != tab && dst != stringTable
      requires FitsInt(HeaderFor(4 * tabLen, stringTableLen).totalSize)
      requires HeaderFor(4 * tabLen, stringTableLen).totalSize <= dst.Length
      modifies dst
      ensures pos == HeaderFor(4 * tabLen, stringTableLen).totalSize
      ensures BlobFits(old(Written()), old(Strings())) && dst[..pos] == Layout(old(Written()), old(Strings()))
      ensures forall i | pos <= i < dst.Length :: dst[i] == old(dst[i])
    {
      ghost var structBlock, strings := Written(), Strings();
      var h := OutputBlocks(dst);
      WholeWords(structBlock, tabLen);
      HeaderWordsFit(|structBlock|, |strings|);
      ghost var blocks := dst[40..h.totalSize];
      StoreHeader(dst, h);
      pos := h.totalSize;
      assert dst[..pos][40..] == blocks;
      LayoutOfBlocks(structBlock, strings, dst[..pos]);
    }

    /** Write the blocks behind the header, and return what the header has to say about them. */
    method OutputBlocks(dst: array<byte>) returns (h: Header)
      requires TabOk() && StringTableOk() && dst != tab && dst != stringTable
      requires HeaderFor(4 * tabLen, stringTableLen).totalSize <= dst.Length
      modifies dst
      ensures h == HeaderFor(4 * tabLen, stringTableLen)
      ensures dst[40..h.totalSize] == Blocks(old(Written()), old(Strings()))
      ensures forall i | h.totalSize <= i < dst.Length :: dst[i] == old(dst[i])
    {
      var sizeStruct, sizeStrings := 4 * tabLen, stringTableLen;
      var pos := AppendAligned(dst, 40, tab[..sizeStruct]);
      var offRsvmap := pos;
      pos := AppendTo(dst, pos, Zeros(16));
      var offStrings := pos;
      pos := AppendAligned(dst, pos, stringTable[..sizeStrings]);
      h := Header(FDT_MAGIC, pos, 40, offStrings, offRsvmap, FDT_VERSION, FDT_LAST_COMP_VERSION, 0,
                  sizeStrings, sizeStruct);
      BehindHeader(old(dst[..40]), Written(), Strings(), dst[..pos]);
      assert dst[40..pos] == dst[..pos][40..];
    }

    /** One call. */
    method Emit(e: Event)
      requires Valid() && Fit(e) && FitsInt(stringTableLen)
      modifies this, tab, stringTable
      ensures Valid() && events == old(events) + [e]
      ensures tabLen == old(tabLen) + WordsOf(e) && stringTableLen <= old(stringTableLen) + NameBytesOf(e)
      ensures fresh({tab} - old({tab})) && fresh({stringTable} - old({stringTable}))
    {
      match e {
        case Begin(name) => BeginNode(name);
        case Prop(prop) => AddProp(prop.name, prop.data);
        case End => EndNode();
      }
    }

    /** A sequence of calls. */
    method EmitAll(es: seq<Event>)
      requires Valid() && events == [] && tabLen == 0 && stringTableLen == 0
      requires (forall e | e in es :: Fit(e)) && FitsInt(AllNameBytes(es))
      modifies this, tab, stringTable
      ensures Valid() && events == es
      ensures tabLen == AllWords(es) && stringTableLen <= AllNameBytes(es)
      ensures fresh({tab} - old({tab})) && fresh({stringTable} - old({stringTable}))
    {
      assert es[..0] == [];
      for i := 0 to |es|
        invariant Valid() && events == es[..i]
        invariant tabLen == AllWords(es[..i]) && stringTableLen <= AllNameBytes(es[..i])
        invariant fresh({tab} - old({tab})) && fresh({stringTable} - old({stringTable}))
      {
        PrefixStep(es, i);
        Emit(es[i]);
      }
      assert es[..|es|] == es;
    }

    method PutCell(cells: seq<nat>, i: nat, ghost start: Bytes)
      requires TabOk() && i < |cells| && forall i | 0 <= i < |cells| :: Fits32(cells[i])
      requires Written() == start + Words(cells[..i])
      modifies this`tab, this`tabLen, tab
      ensures TabOk() && Written() == start + Words(cells[..i + 1])
      ensures fresh({tab} - old({tab}))
    {
      Put32(cells[i]);
      WordsStep(cells, i);
      JoinTwo(start, Words(cells[..i]), Be32(cells[i]));
    }

    method PutCells(cells: seq<nat>, ghost data: Bytes)
      requires TabOk() && IsCells(data, cells)
      modifies this`tab, this`tabLen, tab
      ensures TabOk() && Written() == old(Written()) + Padded(data)
      ensures fresh({tab} - old({tab}))
    {
      ghost var start := Written();
      for i := 0 to |cells|
        invariant TabOk() && Written() == start + Words(cells[..i])
        invariant fresh({tab} - old({tab}))
      {
        PutCell(cells, i, start);
      }
      assert cells[..|cells|] == cells;
      WholeWordsPadded(data, |cells|);
    }
  }

  ghost predicate IsCells(data: Bytes, cells: seq<nat>) {
    (forall i | 0 <= i < |cells| :: Fits32(cells[i])) && data == Words(cells)
  }

  lemma WordsStep(cells: seq<nat>, i: nat)
    requires i < |cells| && forall i | 0 <= i < |cells| :: Fits32(cells[i])
    ensures Words(cells[..i + 1]) == Words(cells[..i]) + Be32(cells[i])
  {
    assert cells[..i + 1][..i] == cells[..i];
  }

  lemma DepthAppend(es: seq<Event>, e: Event)
    ensures Depth(es + [e]) == Depth(es) + Deeper(e)
  {
    assert (es + [e])[..|es|] == es;
  }

  lemma BehindHeader(start: Bytes, structBlock: Bytes, strings: Bytes, written: Bytes)
    requires |start| == 40
    requires var h := HeaderFor(|structBlock|, |strings|);
      written == start + (structBlock + Zeros(h.offRsvmap - 40 - |structBlock|)) + Zeros(16)
                 + (strings + Zeros(h.totalSize - h.offStrings - |strings|))
    ensures written[40..] == Blocks(structBlock, strings)
  {
  }

  lemma JoinTwo(w: Bytes, a: Bytes, b: Bytes)
    ensures w + a + b == w + (a + b)
  {
  }

  lemma JoinThree(w: Bytes, a: Bytes, b: Bytes, c: Bytes)
    ensures w + a + b + c == w + (a + b + c)
  {
  }

  lemma WholeWordsPadded(data: Bytes, n: nat)
    requires |data| == 4 * n
    ensures Padded(data) == data
  {
  }

  lemma {:induction false} DepthConcat(es: seq<Event>, fs: seq<Event>)
    ensures Depth(es + fs) == Depth(es) + Depth(fs)
    decreases |fs|
  {
    if fs == [] {
      assert es + fs == es;
    } else {
      var front := fs[..|fs| - 1];
      assert es + fs == (es + front) + [fs[|fs| - 1]];
      DepthAppend(es + front, fs[|fs| - 1]);
      DepthConcat(es, front);
    }
  }

  /** The calls that describe a tree open as many nodes as they close. */
  lemma {:induction false} DepthOfTree(t: Tree)
    ensures Depth(Flatten(t)) == 0
    decreases t
  {
    var begin, props, children := [Begin(t.name)], PropEvents(t.props), FlattenAll(t.children);
    DepthAppend([], begin[0]);
    assert [] + begin == begin;
    DepthOfProps(t.props);
    DepthOfTrees(t.children);
    DepthConcat(begin, props);
    DepthConcat(begin + props, children);
    DepthAppend(begin + props + children, End);
  }

  lemma {:induction false} DepthOfProps(props: seq<Property>)
    ensures Depth(PropEvents(props)) == 0
  {
    if props != [] {
      DepthOfProps(props[1..]);
      DepthAppend([], Prop(props[0]));
      assert [] + [Prop(props[0])] == [Prop(props[0])];
      DepthConcat([Prop(props[0])], PropEvents(props[1..]));
    }
  }

  lemma {:induction false} DepthOfTrees(ts: seq<Tree>)
    ensures Depth(FlattenAll(ts)) == 0
    decreases ts
  {
    if ts != [] {
      DepthOfTree(ts[0]);
      DepthOfTrees(ts[1..]);
      DepthConcat(Flatten(ts[0]), FlattenAll(ts[1..]));
    }
  }

  /**
   Any tree that is described through begin_node, prop and end_node and then output decodes to itself.
   */
  method WriteTree(t: Tree, dst: array<byte>) returns (n: nat)
    requires forall e | e in Flatten(t) :: Fit(e)
    requires FitsInt(BlobSize(AllWords(Flatten(t)), AllNameBytes(Flatten(t))))
    requires BlobSize(AllWords(Flatten(t)), AllNameBytes(Flatten(t))) <= dst.Length
    modifies dst
    ensures n <= dst.Length && DecodeBlob(dst[..n]) == Some(t)
    ensures forall i | n <= i < dst.Length :: dst[i] == old(dst[i])
  {
    var s := new FdtState();
    var es := Flatten(t);
    s.EmitAll(es);
    DepthOfTree(t);
    BlobSizeMonotone(s.tabLen, s.stringTableLen, AllNameBytes(es));
    n := s.OutputTree(dst, t);
  }
}
