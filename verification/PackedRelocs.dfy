/** The iterator of xh_elf.c over packed relocations, and the packed format that it reads. */
module PackedRelocs {
  import opened Arithmetic
  import opened Errno
  import opened Sleb128
  import opened Words
  import opened Wrappers

  /** `addend` stays 0 where the table has records without one. */
  datatype Reloc = Reloc(offset: nat, info: nat, addend: nat)

  predicate InfoGrouped(flags: nat) { flags % 2 == 1 }
  predicate DeltaGrouped(flags: nat) { flags / 2 % 2 == 1 }
  predicate AddendGrouped(flags: nat) { flags / 4 % 2 == 1 }
  predicate HasAddend(flags: nat) { flags / 8 % 2 == 1 }

  predicate AddendsGrouped(flags: nat) { HasAddend(flags) && AddendGrouped(flags) }

  // ----- the format

  datatype Entry = Entry(delta: int, info: int, addend: int)

  /** What the entries of a group share: its delta, its info and its addend, if the group says so, are used in place of
      those of the entries. A group without addends sets the addend back to 0. `other` are flags without a meaning. */
  datatype Group = Group(
    byInfo: bool, byDelta: bool, byAddend: bool, hasAddend: bool, other: nat,
    delta: int, info: int, addend: int, entries: seq<Entry>)

  /** The number that says so. */
  function Flags(g: Group): nat {
    (if g.byInfo then 1 else 0) + (if g.byDelta then 2 else 0) + (if g.byAddend then 4 else 0)
    + (if g.hasAddend then 8 else 0) + 16 * g.other
  }

  /** What a table means: the entries of group `g` from `entries` on, then `rest`, where `offset` and `addend`
      have been reached. */
  function Meaning(rela: bool, bits: nat, offset: nat, addend: nat, g: Group, entries: seq<Entry>,
                   rest: seq<Group>): seq<Reloc>
    decreases |rest|, |entries|
  {
    if entries == [] then
      if rest == [] then []
      else Meaning(rela, bits, offset, GroupAddend(bits, addend, rest[0]), rest[0], rest[0].entries, rest[1..])
    else
      var e := entries[0];
      var offset' := Wrap(offset + (if g.byDelta then g.delta else e.delta), bits);
      var info := Wrap(if g.byInfo then g.info else e.info, bits);
      var addend' := if OwnAddends(rela, g) then Wrap(addend + e.addend, bits) else addend;
      [Reloc(offset', info, if rela then addend' else 0)]
      + Meaning(rela, bits, offset', addend', g, entries[1..], rest)
  }

  /** The addend with which a group starts. */
  function GroupAddend(bits: nat, addend: nat, g: Group): nat {
    if !g.hasAddend then 0
    else if g.byAddend then Wrap(addend + g.addend, bits)
    else addend
  }

  /** The entries have addends of their own. */
  predicate OwnAddends(rela: bool, g: Group) {
    rela && g.hasAddend && !g.byAddend
  }

  predicate SharedAddend(g: Group) {
    g.hasAddend && g.byAddend
  }

  const NO_GROUP := Group(false, false, false, false, 0, 0, 0, 0, [])

  function EncodeIf(used: bool, v: int): seq<byte> {
    if used then Encode(v) else []
  }

  function EncodeEntries(rela: bool, g: Group, entries: seq<Entry>): seq<byte> {
    if entries == [] then []
    else
      EncodeIf(!g.byDelta, entries[0].delta)
      + (EncodeIf(!g.byInfo, entries[0].info)
      + (EncodeIf(OwnAddends(rela, g), entries[0].addend)
      + EncodeEntries(rela, g, entries[1..])))
  }

  function EncodeGroups(rela: bool, groups: seq<Group>): seq<byte> {
    if groups == [] then []
    else
      var g := groups[0];
      Encode(|g.entries|)
      + (Encode(Flags(g))
      + (EncodeIf(g.byDelta, g.delta)
      + (EncodeIf(g.byInfo, g.info)
      + (EncodeIf(SharedAddend(g), g.addend)
      + (EncodeEntries(rela, g, g.entries) + EncodeGroups(rela, groups[1..]))))))
  }

  function Count(groups: seq<Group>): nat {
    if groups == [] then 0 else |groups[0].entries| + Count(groups[1..])
  }

  function EncodeTable(rela: bool, start: int, groups: seq<Group>): seq<byte> {
    Encode(Count(groups)) + (Encode(start) + EncodeGroups(rela, groups))
  }

  /** Groups have entries, numbers fit a word, and a table of records without addends has none to group. */
  predicate Legal(rela: bool, bits: nat, g: Group) {
    && 0 < |g.entries| < Pow2(bits) && Flags(g) < Pow2(bits)
    && (rela || !SharedAddend(g))
  }

  // ----- the iterator, as a function of its state

  predicate EntryAddends(rela: bool, flags: nat) {
    rela && HasAddend(flags) && !AddendGrouped(flags)
  }

  datatype Cursor = Cursor(
    cur: nat, count: nat, groupSize: nat, groupFlags: nat, groupDelta: nat,
    index: nat, groupIndex: nat, offset: nat, info: nat, addend: nat)

  /** Decodes a number if the flags call for one. */
  function DecodedIf(used: bool, data: seq<byte>, cur: nat, bits: nat): Option<(nat, nat)>
    requires cur <= |data|
  {
    if used then Decoded(data, cur, bits) else Some((0, cur))
  }

  function Opened(data: seq<byte>, bits: nat): Option<Cursor> {
    match Decoded(data, 0, bits)
    case None => None
    case Some((count, c1)) =>
      match Decoded(data, c1, bits)
      case None => None
      case Some((start, c2)) => Some(Cursor(c2, count, 0, 0, 0, 0, 0, start, 0, 0))
  }

  /** The fields of a group up to its info. */
  function GroupHead(data: seq<byte>, bits: nat, c: Cursor): (r: Option<Cursor>)
    requires c.cur <= |data|
    ensures r.Some? ==> r.value.cur <= |data| && r.value.count == c.count && r.value.index == c.index
  {
    match Decoded(data, c.cur, bits)
    case None => None
    case Some((size, c1)) =>
      match Decoded(data, c1, bits)
      case None => None
      case Some((flags, c2)) =>
        match DecodedIf(DeltaGrouped(flags), data, c2, bits)
        case None => None
        case Some((delta, c3)) =>
          match DecodedIf(InfoGrouped(flags), data, c3, bits)
          case None => None
          case Some((info, c4)) =>
            Some(c.(cur := c4, groupSize := size, groupFlags := flags,
                    groupDelta := if DeltaGrouped(flags) then delta else c.groupDelta,
                    info := if InfoGrouped(flags) then info else c.info))
  }

  function GroupTail(rela: bool, data: seq<byte>, bits: nat, c: Cursor): (r: Option<Cursor>)
    requires c.cur <= |data|
    ensures r.Some? ==> r.value.cur <= |data| && r.value.count == c.count && r.value.index == c.index
  {
    if AddendsGrouped(c.groupFlags) && !rela then None
    else
      match DecodedIf(AddendsGrouped(c.groupFlags), data, c.cur, bits)
      case None => None
      case Some((addend, c5)) =>
        Some(c.(cur := c5, groupIndex := 0,
                addend := if !HasAddend(c.groupFlags) then 0
                          else if AddendGrouped(c.groupFlags) then Wrap(c.addend + addend, bits) else c.addend))
  }

  function GroupRead(rela: bool, data: seq<byte>, bits: nat, c: Cursor): (r: Option<Cursor>)
    requires c.cur <= |data|
    ensures r.Some? ==> r.value.cur <= |data| && r.value.count == c.count && r.value.index == c.index
  {
    match GroupHead(data, bits, c)
    case None => None
    case Some(c') => GroupTail(rela, data, bits, c')
  }

  /** The offset of an entry. */
  function EntryHead(data: seq<byte>, bits: nat, c: Cursor): (r: Option<Cursor>)
    requires c.cur <= |data|
    ensures r.Some? ==> r.value.cur <= |data| && r.value.count == c.count && r.value.index == c.index
  {
    match DecodedIf(!DeltaGrouped(c.groupFlags), data, c.cur, bits)
    case None => None
    case Some((delta, c1)) =>
      Some(c.(cur := c1,
              offset := Wrap(c.offset + (if DeltaGrouped(c.groupFlags) then c.groupDelta else delta), bits)))
  }

  function EntryTail(rela: bool, data: seq<byte>, bits: nat, c: Cursor): (r: Option<Cursor>)
    requires c.cur <= |data|
    ensures r.Some? ==> r.value.cur <= |data| && r.value.count == c.count && r.value.index == c.index + 1
  {
    match DecodedIf(!InfoGrouped(c.groupFlags), data, c.cur, bits)
    case None => None
    case Some((info, c2)) =>
      match DecodedIf(EntryAddends(rela, c.groupFlags), data, c2, bits)
      case None => None
      case Some((addend, c3)) =>
        Some(c.(cur := c3, index := c.index + 1, groupIndex := c.groupIndex + 1,
                info := if InfoGrouped(c.groupFlags) then c.info else info,
                addend := if EntryAddends(rela, c.groupFlags) then Wrap(c.addend + addend, bits) else c.addend))
  }

  function EntryRead(rela: bool, data: seq<byte>, bits: nat, c: Cursor): (r: Option<Cursor>)
    requires c.cur <= |data|
    ensures r.Some? ==> r.value.cur <= |data| && r.value.count == c.count && r.value.index == c.index + 1
  {
    match EntryHead(data, bits, c)
    case None => None
    case Some(c') => EntryTail(rela, data, bits, c')
  }

  function Advanced(rela: bool, data: seq<byte>, bits: nat, c: Cursor): (r: Option<Cursor>)
    requires c.cur <= |data|
    ensures r.Some? ==> r.value.cur <= |data| && r.value.count == c.count && r.value.index == c.index + 1 <= c.count
  {
    if c.index >= c.count then None
    else if c.groupIndex == c.groupSize then
      match GroupRead(rela, data, bits, c)
      case None => None
      case Some(c') => EntryRead(rela, data, bits, c')
    else EntryRead(rela, data, bits, c)
  }

  function Current(rela: bool, c: Cursor): Reloc {
    Reloc(c.offset, c.info, if rela then c.addend else 0)
  }

  /** Everything the iterator hands out until it answers NULL; never more than the announced count. */
  function HandedOut(rela: bool, data: seq<byte>, bits: nat, c: Cursor): (out: seq<Reloc>)
    requires c.cur <= |data|
    ensures c.index <= c.count ==> |out| <= c.count - c.index
    decreases c.count - c.index
  {
    match Advanced(rela, data, bits, c)
    case None => []
    case Some(c') => [Current(rela, c')] + HandedOut(rela, data, bits, c')
  }

  class Iterator {
    const decoder: Decoder
    const rela: bool
    var count: nat
    var groupSize: nat
    var groupFlags: nat
    var groupDelta: nat
    var index: nat
    var groupIndex: nat
    var offset: nat
    var info: nat
    var addend: nat

    constructor (data: seq<byte>, bits: nat, rela: bool)
      ensures fresh(decoder) && decoder.data == data && decoder.bits == bits && this.rela == rela
      ensures State() == Cursor(0, 0, 0, 0, 0, 0, 0, 0, 0, 0)
    {
      decoder := new Decoder(data, bits);
      this.rela := rela;
      count, groupSize, groupFlags, groupDelta, index, groupIndex, offset, info, addend := 0, 0, 0, 0, 0, 0, 0, 0, 0;
    }

    ghost function State(): Cursor
      reads this, decoder
    {
      Cursor(decoder.cur, count, groupSize, groupFlags, groupDelta, index, groupIndex, offset, info, addend)
    }

    ghost predicate Valid()
      reads this, decoder
    {
      decoder.cur <= |decoder.data| && index <= count
    }

    /** When it fails, the iterator hands out nothing, even to a caller that ignores the failure. */
    method Init() returns (r: int)
      requires State() == Cursor(0, 0, 0, 0, 0, 0, 0, 0, 0, 0)
      modifies this, decoder
      ensures Valid()
      ensures match Opened(decoder.data, decoder.bits)
              case Some(c) => r == 0 && State() == c
              case None => r == XH_ERRNO_FORMAT && Advanced(rela, decoder.data, decoder.bits, State()) == None
    {
      var value;
      r, value := decoder.Next();
      if r != 0 { return; }
      count := value;
      r, value := decoder.Next();
      if r != 0 { return; }
      offset := value;
    }

    method ReadGroupFields() returns (r: int)
      requires Valid()
      modifies this, decoder
      ensures Valid() && index == old(index) && count == old(count)
      ensures match GroupRead(rela, decoder.data, decoder.bits, old(State()))
              case Some(c) => r == 0 && State() == c
              case None => r == XH_ERRNO_FORMAT
    {
      r := ReadGroupHead();
      if r != 0 { return; }
      if AddendsGrouped(groupFlags) {
        if !rela { return XH_ERRNO_FORMAT; }
        var value;
        r, value := decoder.Next();
        if r != 0 { return; }
        addend := Wrap(addend + value, decoder.bits);
      } else if !HasAddend(groupFlags) {
        addend := 0;
      }
      groupIndex := 0;
    }

    method ReadGroupHead() returns (r: int)
      requires Valid()
      modifies this, decoder
      ensures Valid() && index == old(index) && count == old(count)
      ensures match GroupHead(decoder.data, decoder.bits, old(State()))
              case Some(c) => r == 0 && State() == c
              case None => r == XH_ERRNO_FORMAT
    {
      var value;
      r, value := decoder.Next();
      if r != 0 { return; }
      groupSize := value;
      r, value := decoder.Next();
      if r != 0 { return; }
      groupFlags := value;
      if DeltaGrouped(groupFlags) {
        r, value := decoder.Next();
        if r != 0 { return; }
        groupDelta := value;
      }
      if InfoGrouped(groupFlags) {
        r, value := decoder.Next();
        if r != 0 { return; }
        info := value;
      }
    }

    /** The next record; after NULL only the bounds are known, for a record may have been read in part. */
    method Next() returns (record: Option<Reloc>)
      requires Valid()
      modifies this, decoder
      ensures Valid() && count == old(count) && index == old(index) + (if record.Some? then 1 else 0)
      ensures match Advanced(rela, decoder.data, decoder.bits, old(State()))
              case Some(c) => State() == c && record == Some(Current(rela, c))
              case None => record == None
    {
      if index >= count { return None; }
      if groupIndex == groupSize {
        var r := ReadGroupFields();
        if r != 0 { return None; }
      }
      record := ReadEntry();
    }

    method ReadEntry() returns (record: Option<Reloc>)
      requires Valid() && index < count
      modifies this, decoder
      ensures Valid() && count == old(count) && index == old(index) + (if record.Some? then 1 else 0)
      ensures match EntryRead(rela, decoder.data, decoder.bits, old(State()))
              case Some(c) => State() == c && record == Some(Current(rela, c))
              case None => record == None
    {
      if DeltaGrouped(groupFlags) {
        offset := Wrap(offset + groupDelta, decoder.bits);
      } else {
        var r, value := decoder.Next();
        if r != 0 { return None; }
        offset := Wrap(offset + value, decoder.bits);
      }
      record := ReadEntryTail();
    }

    method ReadEntryTail() returns (record: Option<Reloc>)
      requires Valid() && index < count
      modifies this, decoder
      ensures Valid() && count == old(count) && index == old(index) + (if record.Some? then 1 else 0)
      ensures match EntryTail(rela, decoder.data, decoder.bits, old(State()))
              case Some(c) => State() == c && record == Some(Current(rela, c))
              case None => record == None
    {
      var r, value;
      if !InfoGrouped(groupFlags) {
        r, value := decoder.Next();
        if r != 0 { return None; }
        info := value;
      }
      if EntryAddends(rela, groupFlags) {
        r, value := decoder.Next();
        if r != 0 { return None; }
        addend := Wrap(addend + value, decoder.bits);
      }
      index := index + 1;
      groupIndex := groupIndex + 1;
      record := Some(Reloc(offset, info, if rela then addend else 0));
    }
  }

  // ----- the round trip

  /** Each flag is the bit that the iterator looks at. */
  lemma FlagBits(g: Group)
    ensures InfoGrouped(Flags(g)) == g.byInfo && DeltaGrouped(Flags(g)) == g.byDelta
    ensures AddendGrouped(Flags(g)) == g.byAddend && HasAddend(Flags(g)) == g.hasAddend
  {
    LowBits(if g.byInfo then 1 else 0, if g.byDelta then 1 else 0, if g.byAddend then 1 else 0,
            if g.hasAddend then 1 else 0, g.other);
  }

  lemma {:induction false} LowBits(n1: nat, n2: nat, n4: nat, n8: nat, other: nat)
    requires n1 < 2 && n2 < 2 && n4 < 2 && n8 < 2
    ensures var n := n1 + 2 * n2 + 4 * n4 + 8 * n8 + 16 * other;
      n % 2 == n1 && n / 2 % 2 == n2 && n / 4 % 2 == n4 && n / 8 % 2 == n8
  {
    var n := n1 + 2 * n2 + 4 * n4 + 8 * n8 + 16 * other;
    ModUnique(n, n2 + 2 * n4 + 4 * n8 + 8 * other, n1, 2);
    ModUnique(n / 2, n4 + 2 * n8 + 4 * other, n2, 2);
    ModUnique(n, n4 + 2 * n8 + 4 * other, n1 + 2 * n2, 4);
    ModUnique(n / 4, n8 + 2 * other, n4, 2);
    ModUnique(n, n8 + 2 * other, n1 + 2 * n2 + 4 * n4, 8);
    ModUnique(n / 8, other, n8, 2);
  }

  /** They are the bits 1, 2, 4 and 8. */
  lemma FlagMasks(flags: nat)
    ensures InfoGrouped(flags) <==> And(flags, 1) != 0
    ensures DeltaGrouped(flags) <==> And(flags, 2) != 0
    ensures AddendGrouped(flags) <==> And(flags, 4) != 0
    ensures HasAddend(flags) <==> And(flags, 8) != 0
  {
    AndOneBit(flags, 0);
    AndOneBit(flags, 1);
    AndOneBit(flags, 2);
    AndOneBit(flags, 3);
    assert flags / 2 / 2 == flags / 4 && flags / 4 / 2 == flags / 8;
  }

  ghost predicate ReadAs(used: bool, data: seq<byte>, cur: nat, bits: nat, v: int, next: nat)
    requires cur <= |data|
  {
    DecodedIf(used, data, cur, bits) == Some((if used then Wrap(v, bits) else 0, next))
  }

  lemma {:induction false} DecodeHere(data: seq<byte>, cur: nat, used: bool, v: int, rest: seq<byte>, bits: nat)
    returns (next: nat)
    requires cur <= |data| && data[cur..] == EncodeIf(used, v) + rest
    ensures next <= |data| && data[next..] == rest && ReadAs(used, data, cur, bits, v, next)
  {
    next := cur + |EncodeIf(used, v)|;
    assert data[next..] == data[cur..][next - cur..];
    if used {
      DecodeUndoesEncode(data[..cur], v, rest, bits);
      InParts(data, cur, Encode(v), rest);
    }
  }

  lemma InParts(data: seq<byte>, cur: nat, s: seq<byte>, rest: seq<byte>)
    requires cur <= |data| && data[cur..] == s + rest
    ensures data == data[..cur] + s + rest
  {
    assert data == data[..cur] + data[cur..];
  }

  /** The cursor is inside group `g`, before the entry `k`. */
  predicate Inside(c: Cursor, bits: nat, g: Group, k: nat) {
    && c.groupFlags == Flags(g) && c.groupSize == |g.entries| && c.groupIndex == k <= |g.entries|
    && (g.byDelta ==> c.groupDelta == Wrap(g.delta, bits))
    && (g.byInfo ==> c.info == Wrap(g.info, bits))
  }

  function AfterEntry(rela: bool, bits: nat, c: Cursor, g: Group, e: Entry, cur: nat): Cursor {
    c.(cur := cur, index := c.index + 1, groupIndex := c.groupIndex + 1,
       offset := Wrap(c.offset + (if g.byDelta then g.delta else e.delta), bits),
       info := Wrap(if g.byInfo then g.info else e.info, bits),
       addend := if OwnAddends(rela, g) then Wrap(c.addend + e.addend, bits) else c.addend)
  }

  /** The bytes of an entry decode to its fields. */
  lemma {:induction false} EntryBytes(rela: bool, data: seq<byte>, bits: nat, cur: nat, g: Group,
                                      e: Entry, rest: seq<byte>)
    returns (p1: nat, p2: nat, p3: nat)
    requires cur <= |data|
    requires data[cur..] == EncodeIf(!g.byDelta, e.delta) + (EncodeIf(!g.byInfo, e.info)
                            + (EncodeIf(OwnAddends(rela, g), e.addend) + rest))
    ensures p1 <= |data| && p2 <= |data| && p3 <= |data| && data[p3..] == rest
    ensures ReadAs(!g.byDelta, data, cur, bits, e.delta, p1)
    ensures ReadAs(!g.byInfo, data, p1, bits, e.info, p2)
    ensures ReadAs(OwnAddends(rela, g), data, p2, bits, e.addend, p3)
  {
    var b2, b3 := EncodeIf(!g.byInfo, e.info), EncodeIf(OwnAddends(rela, g), e.addend);
    p1 := DecodeHere(data, cur, !g.byDelta, e.delta, b2 + (b3 + rest), bits);
    p2 := DecodeHere(data, p1, !g.byInfo, e.info, b3 + rest, bits);
    p3 := DecodeHere(data, p2, OwnAddends(rela, g), e.addend, rest, bits);
  }

  lemma {:induction false} EntryReadHere(rela: bool, data: seq<byte>, bits: nat, c: Cursor, g: Group, k: nat,
                                         p1: nat, p2: nat, p3: nat)
    requires c.cur <= |data| && p1 <= |data| && p2 <= |data| && p3 <= |data|
    requires Inside(c, bits, g, k) && k < |g.entries|
    requires ReadAs(!g.byDelta, data, c.cur, bits, g.entries[k].delta, p1)
    requires ReadAs(!g.byInfo, data, p1, bits, g.entries[k].info, p2)
    requires ReadAs(OwnAddends(rela, g), data, p2, bits, g.entries[k].addend, p3)
    ensures EntryRead(rela, data, bits, c) == Some(AfterEntry(rela, bits, c, g, g.entries[k], p3))
    ensures Inside(AfterEntry(rela, bits, c, g, g.entries[k], p3), bits, g, k + 1)
  {
    EntryHeadHere(data, bits, c, g, k, p1);
    var offset := AfterEntry(false, bits, c, g, g.entries[k], p1).offset;
    EntryTailHere(rela, data, bits, c.(cur := p1), g, k, offset, p2, p3);
  }

  lemma {:induction false} EntryHeadHere(data: seq<byte>, bits: nat, c: Cursor, g: Group, k: nat, p1: nat)
    requires c.cur <= |data| && p1 <= |data| && Inside(c, bits, g, k) && k < |g.entries|
    requires ReadAs(!g.byDelta, data, c.cur, bits, g.entries[k].delta, p1)
    ensures EntryHead(data, bits, c)
            == Some(c.(cur := p1, offset := AfterEntry(false, bits, c, g, g.entries[k], p1).offset))
  {
    FlagBits(g);
    WrapSum(c.offset, if g.byDelta then g.delta else g.entries[k].delta, bits);
  }

  lemma {:induction false} EntryTailHere(rela: bool, data: seq<byte>, bits: nat, c: Cursor, g: Group, k: nat,
                                         offset: nat, p2: nat, p3: nat)
    requires c.cur <= |data| && p2 <= |data| && p3 <= |data| && Inside(c, bits, g, k) && k < |g.entries|
    requires ReadAs(!g.byInfo, data, c.cur, bits, g.entries[k].info, p2)
    requires ReadAs(OwnAddends(rela, g), data, p2, bits, g.entries[k].addend, p3)
    ensures EntryTail(rela, data, bits, c.(offset := offset))
            == Some(AfterEntry(rela, bits, c, g, g.entries[k], p3).(offset := offset))
  {
    FlagBits(g);
    WrapSum(c.addend, g.entries[k].addend, bits);
  }

  lemma {:induction false} EntryStep(rela: bool, data: seq<byte>, bits: nat, c: Cursor, g: Group, k: nat,
                                     tail: seq<byte>)
    returns (c': Cursor)
    requires c.cur <= |data| && Inside(c, bits, g, k) && k < |g.entries|
    requires data[c.cur..] == EncodeEntries(rela, g, g.entries[k..]) + tail
    ensures EntryRead(rela, data, bits, c) == Some(c') && c'.cur <= |data|
    ensures c' == AfterEntry(rela, bits, c, g, g.entries[k], c'.cur) && Inside(c', bits, g, k + 1)
    ensures data[c'.cur..] == EncodeEntries(rela, g, g.entries[k + 1..]) + tail
  {
    var e, rest := g.entries[k], EncodeEntries(rela, g, g.entries[k + 1..]);
    var b1, b2 := EncodeIf(!g.byDelta, e.delta), EncodeIf(!g.byInfo, e.info);
    var b3 := EncodeIf(OwnAddends(rela, g), e.addend);
    assert g.entries[k..][1..] == g.entries[k + 1..];
    assert b1 + (b2 + (b3 + rest)) + tail == b1 + (b2 + (b3 + (rest + tail)));
    var p1, p2, p3 := EntryBytes(rela, data, bits, c.cur, g, e, rest + tail);
    EntryReadHere(rela, data, bits, c, g, k, p1, p2, p3);
    c' := AfterEntry(rela, bits, c, g, e, p3);
  }

  function AfterGroup(bits: nat, c: Cursor, g: Group, cur: nat): Cursor {
    c.(cur := cur, groupSize := |g.entries|, groupFlags := Flags(g), groupIndex := 0,
       groupDelta := if g.byDelta then Wrap(g.delta, bits) else c.groupDelta,
       info := if g.byInfo then Wrap(g.info, bits) else c.info,
       addend := GroupAddend(bits, c.addend, g))
  }

  /** The bytes of a group decode to its fields. */
  lemma {:induction false} GroupBytes(data: seq<byte>, bits: nat, cur: nat, g: Group, rest: seq<byte>)
    returns (p1: nat, p2: nat, p3: nat, p4: nat, p5: nat)
    requires cur <= |data|
    requires data[cur..] == Encode(|g.entries|) + (Encode(Flags(g)) + (EncodeIf(g.byDelta, g.delta)
                            + (EncodeIf(g.byInfo, g.info)
                            + (EncodeIf(SharedAddend(g), g.addend) + rest))))
    ensures p1 <= |data| && p2 <= |data| && p3 <= |data| && p4 <= |data| && p5 <= |data| && data[p5..] == rest
    ensures ReadAs(true, data, cur, bits, |g.entries|, p1)
    ensures ReadAs(true, data, p1, bits, Flags(g), p2)
    ensures ReadAs(g.byDelta, data, p2, bits, g.delta, p3)
    ensures ReadAs(g.byInfo, data, p3, bits, g.info, p4)
    ensures ReadAs(SharedAddend(g), data, p4, bits, g.addend, p5)
  {
    var b3, b4 := EncodeIf(g.byDelta, g.delta), EncodeIf(g.byInfo, g.info);
    var b5 := EncodeIf(SharedAddend(g), g.addend);
    p1 := DecodeHere(data, cur, true, |g.entries|, Encode(Flags(g)) + (b3 + (b4 + (b5 + rest))), bits);
    p2 := DecodeHere(data, p1, true, Flags(g), b3 + (b4 + (b5 + rest)), bits);
    p3 := DecodeHere(data, p2, g.byDelta, g.delta, b4 + (b5 + rest), bits);
    p4 := DecodeHere(data, p3, g.byInfo, g.info, b5 + rest, bits);
    p5 := DecodeHere(data, p4, SharedAddend(g), g.addend, rest, bits);
  }

  lemma {:induction false} GroupReadHere(rela: bool, data: seq<byte>, bits: nat, c: Cursor, g: Group,
                                         p1: nat, p2: nat, p3: nat, p4: nat, p5: nat)
    requires Legal(rela, bits, g)
    requires c.cur <= |data| && p1 <= |data| && p2 <= |data| && p3 <= |data| && p4 <= |data| && p5 <= |data|
    requires ReadAs(true, data, c.cur, bits, |g.entries|, p1)
    requires ReadAs(true, data, p1, bits, Flags(g), p2)
    requires ReadAs(g.byDelta, data, p2, bits, g.delta, p3)
    requires ReadAs(g.byInfo, data, p3, bits, g.info, p4)
    requires ReadAs(SharedAddend(g), data, p4, bits, g.addend, p5)
    ensures GroupRead(rela, data, bits, c) == Some(AfterGroup(bits, c, g, p5))
  {
    FlagBits(g);
    ModUnique(|g.entries|, 0, |g.entries|, Pow2(bits));
    ModUnique(Flags(g), 0, Flags(g), Pow2(bits));
    WrapSum(c.addend, g.addend, bits);
  }

  lemma {:induction false} GroupStep(rela: bool, data: seq<byte>, bits: nat, c: Cursor, groups: seq<Group>)
    returns (c': Cursor)
    requires groups != [] && Legal(rela, bits, groups[0])
    requires c.cur <= |data| && data[c.cur..] == EncodeGroups(rela, groups)
    ensures GroupRead(rela, data, bits, c) == Some(c') && c'.cur <= |data|
    ensures c' == AfterGroup(bits, c, groups[0], c'.cur) && Inside(c', bits, groups[0], 0)
    ensures data[c'.cur..] == EncodeEntries(rela, groups[0], groups[0].entries) + EncodeGroups(rela, groups[1..])
  {
    var g := groups[0];
    var rest := EncodeEntries(rela, g, g.entries) + EncodeGroups(rela, groups[1..]);
    var p1, p2, p3, p4, p5 := GroupBytes(data, bits, c.cur, g, rest);
    GroupReadHere(rela, data, bits, c, g, p1, p2, p3, p4, p5);
    c' := AfterGroup(bits, c, g, p5);
  }

  /** What is left of the table when entry `k` of group `g` is next. */
  ghost predicate Left(rela: bool, data: seq<byte>, bits: nat, c: Cursor, g: Group, k: nat, rest: seq<Group>) {
    && c.cur <= |data| && Inside(c, bits, g, k) && (forall r :: r in rest ==> Legal(rela, bits, r))
    && data[c.cur..] == EncodeEntries(rela, g, g.entries[k..]) + EncodeGroups(rela, rest)
    && c.count - c.index == |g.entries| - k + Count(rest)
  }

  lemma {:induction false} EntryMeaning(rela: bool, bits: nat, c: Cursor, g: Group, k: nat, rest: seq<Group>, cur: nat)
    requires Inside(c, bits, g, k) && k < |g.entries|
    ensures var c' := AfterEntry(rela, bits, c, g, g.entries[k], cur);
      Meaning(rela, bits, c.offset, c.addend, g, g.entries[k..], rest)
      == [Current(rela, c')] + Meaning(rela, bits, c'.offset, c'.addend, g, g.entries[k + 1..], rest)
  {
    assert g.entries[k..][1..] == g.entries[k + 1..];
  }

  /** One record is handed out where the group goes on. */
  lemma {:induction false} NextInGroup(rela: bool, data: seq<byte>, bits: nat, c: Cursor, g: Group, k: nat,
                                       rest: seq<Group>)
    returns (c': Cursor)
    requires Left(rela, data, bits, c, g, k, rest) && k < |g.entries|
    ensures Advanced(rela, data, bits, c) == Some(c') && Left(rela, data, bits, c', g, k + 1, rest)
    ensures c' == AfterEntry(rela, bits, c, g, g.entries[k], c'.cur)
  {
    c' := EntryStep(rela, data, bits, c, g, k, EncodeGroups(rela, rest));
  }

  /** One record is handed out where a group starts. */
  lemma {:induction false} NextGroup(rela: bool, data: seq<byte>, bits: nat, c: Cursor, g: Group, rest: seq<Group>)
    returns (c1: Cursor, c2: Cursor)
    requires Left(rela, data, bits, c, g, |g.entries|, rest) && rest != []
    ensures Advanced(rela, data, bits, c) == Some(c2) && Left(rela, data, bits, c2, rest[0], 1, rest[1..])
    ensures c1 == AfterGroup(bits, c, rest[0], c1.cur) && Inside(c1, bits, rest[0], 0)
    ensures 0 < |rest[0].entries| && c2 == AfterEntry(rela, bits, c1, rest[0], rest[0].entries[0], c2.cur)
  {
    var h := rest[0];
    assert Legal(rela, bits, h);
    assert data[c.cur..] == EncodeGroups(rela, rest);
    c1 := GroupStep(rela, data, bits, c, rest);
    assert h.entries[0..] == h.entries;
    c2 := EntryStep(rela, data, bits, c1, h, 0, EncodeGroups(rela, rest[1..]));
  }

  lemma {:induction false} GroupMeaning(rela: bool, bits: nat, c: Cursor, c1: Cursor, c2: Cursor, g: Group,
                                        rest: seq<Group>)
    requires rest != [] && rest[0].entries != [] && Inside(c1, bits, rest[0], 0)
    requires c1 == AfterGroup(bits, c, rest[0], c1.cur)
    requires c2 == AfterEntry(rela, bits, c1, rest[0], rest[0].entries[0], c2.cur)
    ensures Meaning(rela, bits, c.offset, c.addend, g, [], rest)
            == [Current(rela, c2)] + Meaning(rela, bits, c2.offset, c2.addend, rest[0], rest[0].entries[1..], rest[1..])
  {
    assert rest[0].entries[0..] == rest[0].entries;
    EntryMeaning(rela, bits, c1, rest[0], 0, rest[1..], c2.cur);
  }

  /** From any position between two entries on, the iterator hands out what is left of the table. */
  lemma {:induction false} HandsOutTheRest(rela: bool, data: seq<byte>, bits: nat, c: Cursor, g: Group, k: nat,
                                           rest: seq<Group>)
    requires Left(rela, data, bits, c, g, k, rest)
    ensures HandedOut(rela, data, bits, c) == Meaning(rela, bits, c.offset, c.addend, g, g.entries[k..], rest)
    decreases |rest|, |g.entries| - k
  {
    if k < |g.entries| {
      var c' := NextInGroup(rela, data, bits, c, g, k, rest);
      EntryMeaning(rela, bits, c, g, k, rest, c'.cur);
      HandsOutTheRest(rela, data, bits, c', g, k + 1, rest);
    } else if rest != [] {
      var c1, c2 := NextGroup(rela, data, bits, c, g, rest);
      GroupMeaning(rela, bits, c, c1, c2, g, rest);
      HandsOutTheRest(rela, data, bits, c2, rest[0], 1, rest[1..]);
    }
  }

  /** Reading an encoded table hands out exactly the relocations it stands for, and then NULL. */
  lemma {:induction false} RoundTrip(rela: bool, bits: nat, start: int, groups: seq<Group>)
    requires Count(groups) < Pow2(bits) && forall g :: g in groups ==> Legal(rela, bits, g)
    ensures var data := EncodeTable(rela, start, groups);
      && Opened(data, bits).Some?
      && HandedOut(rela, data, bits, Opened(data, bits).value)
         == Meaning(rela, bits, Wrap(start, bits), 0, NO_GROUP, [], groups)
  {
    var data := EncodeTable(rela, start, groups);
    var n := Count(groups);
    assert data[0..] == data;
    var p1 := DecodeHere(data, 0, true, n, Encode(start) + EncodeGroups(rela, groups), bits);
    var p2 := DecodeHere(data, p1, true, start, EncodeGroups(rela, groups), bits);
    ModUnique(n, 0, n, Pow2(bits));
    var c := Opened(data, bits).value;
    assert NO_GROUP.entries[0..] == [];
    HandsOutTheRest(rela, data, bits, c, NO_GROUP, 0, groups);
  }

  /** One group by delta, whose entries have addends; one by info, which has none; and one by everything. */
  ghost predicate ThreeGroups(groups: seq<Group>) {
    groups == [
      Group(false, true, false, true, 0, 4, 0, 0, [Entry(0, 7, 1), Entry(0, 9, 1)]),
      Group(true, false, false, false, 0, 0, 7, 0, [Entry(4, 0, 0), Entry(8, 0, 0)]),
      Group(true, true, true, true, 0, 4, 7, 3, [Entry(0, 0, 0)])]
  }

  lemma SmallNumber(v: nat, bits: nat)
    requires v < 64 && bits >= 16
    ensures Encode(v) == [v] && Wrap(v, bits) == v
  {
    Pow2Values();
    Pow2Monotonic(16, bits);
    ModUnique(v, 0, v, Pow2(bits));
  }

  lemma {:induction false} SmallNumbers()
    ensures Encode(1) == [1] && Encode(2) == [2] && Encode(3) == [3] && Encode(4) == [4] && Encode(5) == [5]
    ensures Encode(7) == [7] && Encode(8) == [8] && Encode(9) == [9] && Encode(10) == [10]
    ensures Encode(15) == [15] && Encode(16) == [16]
  {
  }

  lemma {:induction false} SecondEntryBytes(g: Group)
    requires g == Group(true, false, false, false, 0, 0, 7, 0, [Entry(4, 0, 0), Entry(8, 0, 0)])
    ensures EncodeEntries(true, g, g.entries) == [4, 8]
  {
    SmallNumbers();
    assert g.entries[1..] == [Entry(8, 0, 0)] && g.entries[1..][1..] == [];
    assert EncodeEntries(true, g, g.entries[1..]) == [8];
  }

  lemma SecondBytes(rest: seq<byte>)
    ensures [2] + ([1] + ([] + ([7] + ([] + ([4, 8] + rest))))) == [2, 1, 7, 4, 8] + rest
  {
  }

  lemma {:induction false} SecondGroupBytes(g: Group, rest: seq<Group>)
    requires g == Group(true, false, false, false, 0, 0, 7, 0, [Entry(4, 0, 0), Entry(8, 0, 0)])
    ensures EncodeGroups(true, [g] + rest) == [2, 1, 7, 4, 8] + EncodeGroups(true, rest)
  {
    SmallNumbers();
    SecondEntryBytes(g);
    assert ([g] + rest)[1..] == rest;
    SecondBytes(EncodeGroups(true, rest));
  }

  lemma {:induction false} FirstEntryBytes(g: Group)
    requires g == Group(false, true, false, true, 0, 4, 0, 0, [Entry(0, 7, 1), Entry(0, 9, 1)])
    ensures EncodeEntries(true, g, g.entries) == [7, 1, 9, 1]
  {
    SmallNumbers();
    assert g.entries[1..] == [Entry(0, 9, 1)] && g.entries[1..][1..] == [];
    assert EncodeEntries(true, g, g.entries[1..]) == [9, 1];
  }

  lemma FirstBytes(rest: seq<byte>)
    ensures [2] + ([10] + ([4] + ([] + ([] + ([7, 1, 9, 1] + rest))))) == [2, 10, 4, 7, 1, 9, 1] + rest
  {
  }

  lemma {:induction false} FirstGroupBytes(g: Group, rest: seq<Group>)
    requires g == Group(false, true, false, true, 0, 4, 0, 0, [Entry(0, 7, 1), Entry(0, 9, 1)])
    ensures EncodeGroups(true, [g] + rest) == [2, 10, 4, 7, 1, 9, 1] + EncodeGroups(true, rest)
  {
    SmallNumbers();
    FirstEntryBytes(g);
    assert ([g] + rest)[1..] == rest;
    FirstBytes(EncodeGroups(true, rest));
  }

  lemma {:induction false} ThirdGroupBytes(g: Group)
    requires g == Group(true, true, true, true, 0, 4, 7, 3, [Entry(0, 0, 0)])
    ensures EncodeGroups(true, [g]) == [1, 15, 4, 7, 3]
  {
    SmallNumbers();
    assert g.entries[1..] == [] && EncodeEntries(true, g, g.entries) == [] && [g][1..] == [];
  }

  lemma {:induction false} ExampleBytes(groups: seq<Group>)
    requires ThreeGroups(groups)
    ensures EncodeGroups(true, groups) == [2, 10, 4, 7, 1, 9, 1] + ([2, 1, 7, 4, 8] + [1, 15, 4, 7, 3])
    ensures Count(groups) == 5
  {
    var a, b, c := groups[0], groups[1], groups[2];
    FirstGroupBytes(a, [b, c]);
    SecondGroupBytes(b, [c]);
    ThirdGroupBytes(c);
    assert [a] + [b, c] == groups && [b] + [c] == [b, c];
    assert groups[1..] == [b, c] && [b, c][1..] == [c] && [c][1..] == [];
    assert Count([c]) == 1 && Count([b, c]) == 3;
  }

  lemma {:induction false} ExampleMeaning(groups: seq<Group>, bits: nat)
    requires bits >= 16 && ThreeGroups(groups)
    ensures Meaning(true, bits, Wrap(16, bits), 0, NO_GROUP, [], groups)
            == [Reloc(20, 7, 1), Reloc(24, 9, 2), Reloc(28, 7, 0), Reloc(36, 7, 0), Reloc(40, 7, 3)]
  {
    forall v: nat | v < 64
      ensures Wrap(v, bits) == v
    {
      SmallNumber(v, bits);
    }
    var a, b, c := groups[0], groups[1], groups[2];
    var two, one := groups[1..], groups[2..];
    assert two[1..] == one && one[1..] == [];
    assert a.entries[1..] == [Entry(0, 9, 1)] && a.entries[1..][1..] == [];
    assert b.entries[1..] == [Entry(8, 0, 0)] && b.entries[1..][1..] == [];
    assert c.entries[1..] == [];
    assert Meaning(true, bits, 36, 3, c, c.entries, []) == [Reloc(40, 7, 3)];
    assert Meaning(true, bits, 36, 0, b, [], one) == [Reloc(40, 7, 3)];
    assert Meaning(true, bits, 28, 0, b, b.entries[1..], one) == [Reloc(36, 7, 0), Reloc(40, 7, 3)];
    assert Meaning(true, bits, 24, 0, b, b.entries, one) == [Reloc(28, 7, 0), Reloc(36, 7, 0), Reloc(40, 7, 3)];
    assert Meaning(true, bits, 24, 2, a, [], two) == [Reloc(28, 7, 0), Reloc(36, 7, 0), Reloc(40, 7, 3)];
    assert Meaning(true, bits, 20, 1, a, a.entries[1..], two)
        == [Reloc(24, 9, 2), Reloc(28, 7, 0), Reloc(36, 7, 0), Reloc(40, 7, 3)];
    assert Meaning(true, bits, 16, 0, a, a.entries, two)
        == [Reloc(20, 7, 1), Reloc(24, 9, 2), Reloc(28, 7, 0), Reloc(36, 7, 0), Reloc(40, 7, 3)];
  }

  lemma {:induction false} ExampleTable(groups: seq<Group>, data: seq<byte>)
    requires ThreeGroups(groups)
    requires data == [5] + ([16] + ([2, 10, 4, 7, 1, 9, 1] + ([2, 1, 7, 4, 8] + [1, 15, 4, 7, 3])))
    ensures EncodeTable(true, 16, groups) == data
  {
    ExampleBytes(groups);
    SmallNumbers();
  }

  lemma {:induction false} ExampleIsLegal(groups: seq<Group>, bits: nat)
    requires bits >= 16 && ThreeGroups(groups)
    ensures Count(groups) < Pow2(bits) && forall g :: g in groups ==> Legal(true, bits, g)
  {
    Pow2Values();
    Pow2Monotonic(16, bits);
    ExampleBytes(groups);
  }

  /** An example: what is handed out for these bytes. */
  lemma {:induction false} Example(groups: seq<Group>, data: seq<byte>, bits: nat)
    requires bits in {32, 64} && ThreeGroups(groups)
    requires data == [5] + ([16] + ([2, 10, 4, 7, 1, 9, 1] + ([2, 1, 7, 4, 8] + [1, 15, 4, 7, 3])))
    ensures data == EncodeTable(true, 16, groups) && Opened(data, bits).Some?
    ensures HandedOut(true, data, bits, Opened(data, bits).value)
            == [Reloc(20, 7, 1), Reloc(24, 9, 2), Reloc(28, 7, 0), Reloc(36, 7, 0), Reloc(40, 7, 3)]
  {
    ExampleTable(groups, data);
    ExampleMeaning(groups, bits);
    ExampleIsLegal(groups, bits);
    RoundTrip(true, bits, 16, groups);
  }
}
