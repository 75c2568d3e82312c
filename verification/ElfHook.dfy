/** xh_elf_hook: overwriting the slots through which a library calls a symbol. */
module ElfHook {
  import opened Arithmetic
  import opened ElfHash
  import opened Errno
  import opened Words
  import opened Wrappers

  import Packed = PackedRelocs
  import Plain = PlainRelocs

  type Reloc = Plain.Reloc

  datatype SymbolTable = Sysv(sysv: SysvTable) | Gnu(gnu: GnuTable)

  /** The relocation types depend on the machine; a table that the library does not have is None. */
  datatype Elf = Elf(
    bits: nat, rela: bool, jumpSlot: nat, globDat: nat, abs: nat, baseAddr: nat, biasAddr: nat,
    symbols: SymbolTable, plt: Option<Plain.PlainTable>, dyn: Option<Plain.PlainTable>,
    android: Option<seq<byte>>)

  // ----- the symbol

  ghost predicate TableHolds(t: SymbolTable) {
    match t
    case Sysv(sysv) => exists rows :: AllHashed(sysv, rows)
    case Gnu(gnu) => WellFormed(gnu)
  }

  /** Symbol `i` has the name; number 0 is no symbol of a SysV table. */
  ghost predicate HasName(t: SymbolTable, i: nat, symbol: Name) {
    match t
    case Sysv(sysv) => i != 0 && Named(sysv.names, i, symbol)
    case Gnu(gnu) => Named(gnu.names, i, symbol)
  }

  ghost function Rows(t: SysvTable): (rows: seq<seq<nat>>)
    requires TableHolds(Sysv(t))
    ensures AllHashed(t, rows)
  {
    var rows :| AllHashed(t, rows);
    rows
  }

  /** The `k`-th symbol of the chain is the first one with the name. */
  ghost predicate FirstInRow(names: seq<Name>, row: seq<nat>, symbol: Name, k: nat) {
    k < |row| && Named(names, row[k], symbol) && forall j :: 0 <= j < k ==> !Named(names, row[j], symbol)
  }

  /** The symbol that a lookup finds. */
  ghost function LookedUp(t: SymbolTable, symbol: Name): Option<nat>
    requires TableHolds(t)
  {
    match t
    case Sysv(sysv) =>
      var row := RowOf(sysv, Rows(sysv), symbol);
      if k: nat :| FirstInRow(sysv.names, row, symbol, k) then Some(row[k]) else None
    case Gnu(gnu) =>
      if i: nat :| IsFirst(gnu, symbol, i) then Some(i) else None
  }

  method FindSymidx(t: SymbolTable, symbol: Name) returns (r: int, symidx: nat)
    requires TableHolds(t)
    ensures LookedUp(t, symbol) == if r == 0 then Some(symidx) else None
    ensures r == 0 <==> exists i :: HasName(t, i, symbol)
    ensures r == 0 ==> HasName(t, symidx, symbol)
  {
    match t
    case Sysv(sysv) =>
      r, symidx := SysvLookup(sysv, symbol, Rows(sysv));
      ghost var row := RowOf(sysv, Rows(sysv), symbol);
      assert r == 0 ==> exists k: nat :: FirstInRow(sysv.names, row, symbol, k) && row[k] == symidx;
      assert forall i :: HasName(t, i, symbol) <==> i != 0 && Named(sysv.names, i, symbol);
    case Gnu(gnu) =>
      r, symidx := GnuLookup(gnu, symbol);
      assert forall i :: HasName(t, i, symbol) <==> Named(gnu.names, i, symbol);
  }

  // ----- the slots

  /** XH_ELF_R_SYM and XH_ELF_R_TYPE. */
  function SymOf(bits: nat, info: nat): nat {
    if bits == 64 then info / 0x1_0000_0000 else info / 0x100
  }

  function TypeOf(bits: nat, info: nat): nat {
    if bits == 64 then info % 0x1_0000_0000 else info % 0x100
  }

  predicate Matches(elf: Elf, isPlt: bool, symidx: nat, rec: Reloc) {
    && SymOf(elf.bits, rec.info) == symidx
    && (if isPlt then TypeOf(elf.bits, rec.info) == elf.jumpSlot
        else TypeOf(elf.bits, rec.info) in {elf.globDat, elf.abs})
  }

  function SlotOf(elf: Elf, rec: Reloc): nat {
    Wrap(elf.biasAddr + rec.offset, elf.bits)
  }

  ghost predicate TablesReadable(elf: Elf) {
    && (elf.plt.Some? ==> Plain.Readable(elf.plt.value, Plain.EntrySize(elf.bits, elf.rela)))
    && (elf.dyn.Some? ==> Plain.Readable(elf.dyn.value, Plain.EntrySize(elf.bits, elf.rela)))
  }

  /** The records that the iterator over a table hands out. */
  ghost function Handed(elf: Elf, table: Option<Plain.PlainTable>): seq<Reloc>
    requires table.Some? ==> Plain.Readable(table.value, Plain.EntrySize(elf.bits, elf.rela))
  {
    if table == None then [] else Plain.HandedOut(table.value, Plain.EntrySize(elf.bits, elf.rela))
  }

  ghost function HandedAndroid(elf: Elf): seq<Reloc> {
    if elf.android == None then []
    else
      match Packed.Opened(elf.android.value, elf.bits)
      case None => []
      case Some(c) => Unpacked(Packed.HandedOut(elf.rela, elf.android.value, elf.bits, c))
  }

  /** The addend of a record is not looked at. */
  function Unpacked(recs: seq<Packed.Reloc>): (out: seq<Reloc>)
    ensures |out| == |recs|
  {
    if recs == [] then [] else [Plain.Reloc(recs[0].offset, recs[0].info)] + Unpacked(recs[1..])
  }

  /** The slots of all matching records, in order. */
  ghost function Slots(elf: Elf, isPlt: bool, symidx: nat, recs: seq<Reloc>): seq<nat> {
    if recs == [] then []
    else (if Matches(elf, isPlt, symidx, recs[0]) then [SlotOf(elf, recs[0])] else [])
         + Slots(elf, isPlt, symidx, recs[1..])
  }

  function First<T>(s: seq<T>): seq<T> {
    if s == [] then [] else s[..1]
  }

  ghost function PltSlots(elf: Elf, symidx: nat): seq<nat>
    requires TablesReadable(elf)
  {
    First(Slots(elf, true, symidx, Handed(elf, elf.plt)))
  }

  ghost function DynSlots(elf: Elf, symidx: nat): seq<nat>
    requires TablesReadable(elf)
  {
    Slots(elf, false, symidx, Handed(elf, elf.dyn))
  }

  ghost function AndroidSlots(elf: Elf, symidx: nat): seq<nat> {
    Slots(elf, false, symidx, HandedAndroid(elf))
  }

  /** What a hook overwrites: the first matching slot of the PLT and every matching slot of the other tables. */
  ghost function Targets(elf: Elf, symidx: nat): seq<nat>
    requires TablesReadable(elf)
  {
    PltSlots(elf, symidx) + DataTargets(elf, symidx)
  }

  ghost function DataTargets(elf: Elf, symidx: nat): seq<nat>
    requires TablesReadable(elf)
  {
    DynSlots(elf, symidx) + AndroidSlots(elf, symidx)
  }

  /** The targets of a symbol that the library has. */
  ghost function AllTargets(elf: Elf, symbol: Name): seq<nat>
    requires TableHolds(elf.symbols) && TablesReadable(elf)
  {
    match LookedUp(elf.symbols, symbol)
    case None => []
    case Some(symidx) => Targets(elf, symidx)
  }

  lemma {:induction false} SlotsAreAllMatches(elf: Elf, isPlt: bool, symidx: nat, recs: seq<Reloc>, a: nat)
    ensures a in Slots(elf, isPlt, symidx, recs)
            <==> exists rec :: rec in recs && Matches(elf, isPlt, symidx, rec) && SlotOf(elf, rec) == a
  {
    if recs != [] {
      SlotsAreAllMatches(elf, isPlt, symidx, recs[1..], a);
      assert forall rec :: rec in recs <==> rec == recs[0] || rec in recs[1..];
    }
  }

  /** Outside the PLT no matching record that is handed out is left out. */
  lemma DataTargetsAreAllMatches(elf: Elf, symidx: nat, a: nat)
    requires TablesReadable(elf)
    ensures a in DataTargets(elf, symidx) <==>
      exists rec :: (rec in Handed(elf, elf.dyn) + HandedAndroid(elf)
                     && Matches(elf, false, symidx, rec) && SlotOf(elf, rec) == a)
  {
    SlotsAreAllMatches(elf, false, symidx, Handed(elf, elf.dyn), a);
    SlotsAreAllMatches(elf, false, symidx, HandedAndroid(elf), a);
    assert forall rec :: rec in Handed(elf, elf.dyn) + HandedAndroid(elf)
                         <==> rec in Handed(elf, elf.dyn) || rec in HandedAndroid(elf);
  }

  /** Spelled out: the record is one for symbol `symidx`, with one of these types. */
  ghost predicate Refers(elf: Elf, types: set<nat>, symidx: nat, info: nat) {
    if elf.bits == 64 then exists t :: t in types && t < 0x1_0000_0000 && info == symidx * 0x1_0000_0000 + t
    else exists t :: t in types && t < 0x100 && info == symidx * 0x100 + t
  }

  lemma MatchesMeans(elf: Elf, isPlt: bool, symidx: nat, rec: Reloc)
    ensures Matches(elf, isPlt, symidx, rec)
            <==> Refers(elf, if isPlt then {elf.jumpSlot} else {elf.globDat, elf.abs}, symidx, rec.info)
    ensures SlotOf(elf, rec) == (elf.biasAddr + rec.offset) % Pow2(elf.bits)
  {
  }

  /** The slot of the first record of the PLT for the symbol. */
  ghost predicate IsPltTarget(elf: Elf, recs: seq<Reloc>, symidx: nat, a: nat) {
    exists k :: FirstReferring(elf, recs, symidx, k) && a == (elf.biasAddr + recs[k].offset) % Pow2(elf.bits)
  }

  ghost predicate FirstReferring(elf: Elf, recs: seq<Reloc>, symidx: nat, k: int) {
    && 0 <= k < |recs| && Refers(elf, {elf.jumpSlot}, symidx, recs[k].info)
    && forall j :: 0 <= j < k ==> !Refers(elf, {elf.jumpSlot}, symidx, recs[j].info)
  }

  /** The slot of a record of another table for the symbol. */
  ghost predicate IsDataTarget(elf: Elf, recs: seq<Reloc>, symidx: nat, a: nat) {
    exists rec :: rec in recs && Refers(elf, {elf.globDat, elf.abs}, symidx, rec.info)
                  && a == (elf.biasAddr + rec.offset) % Pow2(elf.bits)
  }

  lemma {:induction false} FirstMeans(elf: Elf, recs: seq<Reloc>, symidx: nat, a: nat)
    ensures a in First(Slots(elf, true, symidx, recs)) <==> IsPltTarget(elf, recs, symidx, a)
  {
    if recs != [] {
      MatchesMeans(elf, true, symidx, recs[0]);
      FirstMeans(elf, recs[1..], symidx, a);
      PltTargetsOfRest(elf, recs, symidx, a);
    }
  }

  lemma PltTargetsOfRest(elf: Elf, recs: seq<Reloc>, symidx: nat, a: nat)
    requires recs != []
    ensures IsPltTarget(elf, recs, symidx, a) <==>
      if Refers(elf, {elf.jumpSlot}, symidx, recs[0].info) then a == (elf.biasAddr + recs[0].offset) % Pow2(elf.bits)
      else IsPltTarget(elf, recs[1..], symidx, a)
  {
    forall k: nat
      ensures FirstReferring(elf, recs, symidx, k + 1)
              <==> !Refers(elf, {elf.jumpSlot}, symidx, recs[0].info) && FirstReferring(elf, recs[1..], symidx, k)
      ensures k < |recs| - 1 ==> recs[1..][k] == recs[k + 1]
    {
      FirstOfRest(elf, recs, symidx, k);
    }
    assert FirstReferring(elf, recs, symidx, 0) <==> Refers(elf, {elf.jumpSlot}, symidx, recs[0].info);
    if k :| FirstReferring(elf, recs, symidx, k) && a == (elf.biasAddr + recs[k].offset) % Pow2(elf.bits) {
      assert k == 0 || FirstReferring(elf, recs, symidx, k - 1 + 1);
    }
  }

  lemma FirstOfRest(elf: Elf, recs: seq<Reloc>, symidx: nat, k: nat)
    requires recs != []
    ensures FirstReferring(elf, recs, symidx, k + 1)
            <==> !Refers(elf, {elf.jumpSlot}, symidx, recs[0].info) && FirstReferring(elf, recs[1..], symidx, k)
  {
    if FirstReferring(elf, recs[1..], symidx, k) && !Refers(elf, {elf.jumpSlot}, symidx, recs[0].info) {
      forall j | 0 <= j < k + 1
        ensures !Refers(elf, {elf.jumpSlot}, symidx, recs[j].info)
      {
        assert j > 0 ==> recs[1..][j - 1] == recs[j];
      }
    }
    if FirstReferring(elf, recs, symidx, k + 1) {
      forall j | 0 <= j < k
        ensures !Refers(elf, {elf.jumpSlot}, symidx, recs[1..][j].info)
      {
        assert recs[1..][j] == recs[j + 1];
      }
    }
  }

  lemma SlotsMean(elf: Elf, recs: seq<Reloc>, symidx: nat, a: nat)
    ensures a in Slots(elf, false, symidx, recs) <==> IsDataTarget(elf, recs, symidx, a)
  {
    SlotsAreAllMatches(elf, false, symidx, recs, a);
    forall rec | rec in recs
      ensures Matches(elf, false, symidx, rec) <==> Refers(elf, {elf.globDat, elf.abs}, symidx, rec.info)
      ensures SlotOf(elf, rec) == (elf.biasAddr + rec.offset) % Pow2(elf.bits)
    {
      MatchesMeans(elf, false, symidx, rec);
    }
  }

  /** The slots are those of the records at these places, in ascending order. */
  lemma {:induction false} SlotsInOrder(elf: Elf, isPlt: bool, symidx: nat, recs: seq<Reloc>)
    returns (places: seq<nat>)
    ensures |places| == |Slots(elf, isPlt, symidx, recs)|
    ensures forall i, j :: 0 <= i < j < |places| ==> places[i] < places[j]
    ensures forall j :: 0 <= j < |places| ==> places[j] < |recs|
    ensures forall j :: 0 <= j < |places| ==>
      Slots(elf, isPlt, symidx, recs)[j] == (elf.biasAddr + recs[places[j]].offset) % Pow2(elf.bits)
    ensures forall k: nat :: k < |recs| ==>
      (k in places <==> Refers(elf, if isPlt then {elf.jumpSlot} else {elf.globDat, elf.abs}, symidx, recs[k].info))
  {
    places := [];
    if recs != [] {
      var last := |recs| - 1;
      places := SlotsInOrder(elf, isPlt, symidx, recs[..last]);
      assert forall j :: 0 <= j < |places| ==> places[j] in places;
      MatchesMeans(elf, isPlt, symidx, recs[last]);
      SlotsOfOneMore(elf, isPlt, symidx, recs, last);
      assert recs[..last + 1] == recs;
      if Matches(elf, isPlt, symidx, recs[last]) {
        places := places + [last];
      }
      forall k: nat | k < last
        ensures recs[..last][k] == recs[k]
      {
      }
    }
  }

  /** First the PLT, then the other plain table, then the packed one. */
  lemma TargetsInOrder(elf: Elf, symidx: nat)
    requires TablesReadable(elf)
    ensures var plt, dyn := Slots(elf, true, symidx, Handed(elf, elf.plt)),
                            Slots(elf, false, symidx, Handed(elf, elf.dyn));
      Targets(elf, symidx)
      == (if plt == [] then [] else [plt[0]]) + dyn + Slots(elf, false, symidx, HandedAndroid(elf))
  {
  }

  ghost predicate IsTarget(elf: Elf, symidx: nat, a: nat)
    requires TablesReadable(elf)
  {
    || IsPltTarget(elf, Handed(elf, elf.plt), symidx, a)
    || IsDataTarget(elf, Handed(elf, elf.dyn), symidx, a)
    || IsDataTarget(elf, HandedAndroid(elf), symidx, a)
  }

  /** Spelled out: a hook overwrites the slot of the first record of the PLT for the symbol, and those of all records of
      the other two tables for it, as far as these records are handed out. */
  lemma TargetsMean(elf: Elf, symidx: nat, a: nat)
    requires TablesReadable(elf)
    ensures a in Targets(elf, symidx) <==> IsTarget(elf, symidx, a)
  {
    FirstMeans(elf, Handed(elf, elf.plt), symidx, a);
    SlotsMean(elf, Handed(elf, elf.dyn), symidx, a);
    SlotsMean(elf, HandedAndroid(elf), symidx, a);
  }

  /** Which records are handed out: those of a plain table behind the first one. */
  lemma HandedMeans(elf: Elf, table: Option<Plain.PlainTable>, k: nat)
    requires table.Some? ==> Plain.Readable(table.value, Plain.EntrySize(elf.bits, elf.rela))
    ensures |Handed(elf, table)| ==
      if table == None then 0 else Plain.Entries(table.value, Plain.EntrySize(elf.bits, elf.rela))
    ensures k < |Handed(elf, table)| ==> table.Some? && Handed(elf, table)[k] == table.value.records[k + 1]
  {
  }

  /** And those that a packed table stands for, without their addends. */
  lemma PackedMeans(elf: Elf, start: int, groups: seq<Packed.Group>, k: nat)
    requires Packed.Count(groups) < Pow2(elf.bits) && forall g :: g in groups ==> Packed.Legal(elf.rela, elf.bits, g)
    requires elf.android == Some(Packed.EncodeTable(elf.rela, start, groups))
    ensures var table := Packed.Meaning(elf.rela, elf.bits, Wrap(start, elf.bits), 0, Packed.NO_GROUP, [], groups);
      && |HandedAndroid(elf)| == |table|
      && (k < |table| ==> HandedAndroid(elf)[k] == Plain.Reloc(table[k].offset, table[k].info))
  {
    Packed.RoundTrip(elf.rela, elf.bits, start, groups);
    var table := Packed.Meaning(elf.rela, elf.bits, Wrap(start, elf.bits), 0, Packed.NO_GROUP, [], groups);
    if k < |table| {
      UnpackedMeans(table, k);
    }
  }

  lemma {:induction false} UnpackedMeans(recs: seq<Packed.Reloc>, k: nat)
    requires k < |recs|
    ensures Unpacked(recs)[k] == Plain.Reloc(recs[k].offset, recs[k].info)
  {
    if k > 0 {
      UnpackedMeans(recs[1..], k - 1);
    }
  }

  // ----- what overwriting does to memory

  ghost function Patched(words: map<nat, nat>, slots: seq<nat>, v: nat): map<nat, nat>
    decreases slots
  {
    if slots == [] then words else Patched(words[slots[0] := v], slots[1..], v)
  }

  /** What is saved as the old function: the last word that was overwritten by another one. */
  ghost function Saved(words: map<nat, nat>, slots: seq<nat>, v: nat, old_: nat): nat
    decreases slots
  {
    if slots == [] then old_
    else
      var a := slots[0];
      Saved(words[a := v], slots[1..], v, if a !in words || words[a] == v then old_ else words[a])
  }

  lemma PatchOne(words: map<nat, nat>, a: nat, v: nat, old_: nat)
    ensures Patched(words, [a], v) == words[a := v]
    ensures Saved(words, [a], v, old_) == if a !in words || words[a] == v then old_ else words[a]
  {
    assert [a][1..] == [];
  }

  /** The new function is in every slot, and no other word has changed. */
  lemma {:induction false} PatchedWords(words: map<nat, nat>, slots: seq<nat>, v: nat)
    ensures var after := Patched(words, slots, v);
      && after.Keys == words.Keys + (set a | a in slots)
      && forall a :: a in after ==> after[a] == if a in slots then v else words[a]
    decreases slots
  {
    if slots != [] {
      PatchedWords(words[slots[0] := v], slots[1..], v);
      assert forall a :: a in slots <==> a == slots[0] || a in slots[1..];
    }
  }

  /** The saved function is one that stood in a slot, and never the new one. */
  lemma {:induction false} SavedIsAnOldFunction(words: map<nat, nat>, slots: seq<nat>, v: nat, old_: nat)
    requires forall a :: a in slots ==> a in words
    ensures var saved := Saved(words, slots, v, old_);
      if exists a :: a in slots && words[a] != v
      then saved != v && exists a :: a in slots && words[a] == saved
      else saved == old_
    decreases slots
  {
    if slots != [] {
      var a := slots[0];
      var words' := words[a := v];
      SavedIsAnOldFunction(words', slots[1..], v, if words[a] == v then old_ else words[a]);
      assert forall b :: b in slots <==> b == a || b in slots[1..];
      assert forall b :: b in words ==> words'[b] == if b == a then v else words[b];
    }
  }

  /** Slots that hold the new function already stay as they are. */
  lemma {:induction false} NothingLeftToPatch(words: map<nat, nat>, slots: seq<nat>, v: nat, old_: nat)
    requires forall a :: a in slots ==> a in words && words[a] == v
    ensures Patched(words, slots, v) == words && Saved(words, slots, v, old_) == old_
  {
    if slots != [] {
      assert words[slots[0] := v] == words;
      NothingLeftToPatch(words, slots[1..], v, old_);
    }
  }

  lemma {:induction false} PatchOneMore(words: map<nat, nat>, slots: seq<nat>, more: seq<nat>, v: nat, old_: nat)
    ensures Patched(words, slots + more, v) == Patched(Patched(words, slots, v), more, v)
    ensures Saved(words, slots + more, v, old_)
            == Saved(Patched(words, slots, v), more, v, Saved(words, slots, v, old_))
    decreases slots
  {
    if slots == [] {
      assert slots + more == more;
    } else {
      var a := slots[0];
      assert (slots + more)[1..] == slots[1..] + more;
      PatchOneMore(words[a := v], slots[1..], more, v, if a !in words || words[a] == v then old_ else words[a]);
    }
  }

  lemma {:induction false} SlotsSplit(elf: Elf, isPlt: bool, symidx: nat, recs: seq<Reloc>, k: nat)
    requires k <= |recs|
    ensures Slots(elf, isPlt, symidx, recs)
            == Slots(elf, isPlt, symidx, recs[..k]) + Slots(elf, isPlt, symidx, recs[k..])
  {
    if k == 0 {
      assert recs[0..] == recs && recs[..0] == [];
    } else {
      SlotsSplit(elf, isPlt, symidx, recs[1..], k - 1);
      assert recs[..k][1..] == recs[1..][..k - 1] && recs[1..][k - 1..] == recs[k..];
    }
  }

  // ----- the code

  /** No slot lies below the library. */
  ghost predicate Above(elf: Elf, slots: seq<nat>) {
    forall a :: a in slots ==> elf.baseAddr <= a
  }

  /** Memory has the slots, but for those that lie below the library. */
  ghost predicate Mapped(elf: Elf, words: map<nat, nat>, slots: seq<nat>) {
    forall a :: a in slots && elf.baseAddr <= a ==> a in words
  }

  /** Every slot holds the function already. */
  ghost predicate Settled(elf: Elf, words: map<nat, nat>, slots: seq<nat>, v: nat) {
    forall a :: a in slots ==> elf.baseAddr <= a && a in words && words[a] == v
  }

  /** The word that a pointer of the caller points to. */
  class Cell {
    var value: nat
  }

  /** A question about the protection of a word, or a request to change it. */
  datatype Request = Query(addr: nat, prot: nat, answer: int) | Protect(addr: nat, prot: nat, answer: int)

  datatype Image = Image(words: map<nat, nat>, saved: Option<nat>, asked: seq<Request>)

  ghost function WordsAfter(was: Image, slots: seq<nat>, v: nat): map<nat, nat> {
    Patched(was.words, slots, v)
  }

  ghost function SavedAfter(was: Image, slots: seq<nat>, v: nat): Option<nat> {
    if was.saved == None then None else Some(Saved(was.words, slots, v, was.saved.value))
  }

  /** The first `n` of these slots have been overwritten, all of them if there was no error; where nothing was left
      to do, nothing was done. */
  ghost predicate Overwrites(elf: Elf, was: Image, now: Image, slots: seq<nat>, n: nat, v: nat, r: int) {
    && n <= |slots| && (r == 0 <==> n == |slots|) && (r == 0 ==> Above(elf, slots))
    && now.words == WordsAfter(was, slots[..n], v) && now.saved == SavedAfter(was, slots[..n], v)
    && (Settled(elf, was.words, slots, v) ==> r == 0 && now.asked == was.asked)
  }

  /** One run after another. */
  lemma OverwritesThen(elf: Elf, a: Image, b: Image, c: Image, s: seq<nat>, t: seq<nat>, n: nat, m: nat, v: nat, r: int)
    requires Overwrites(elf, a, b, s, n, v, 0) && Overwrites(elf, b, c, t, m, v, r)
    ensures Overwrites(elf, a, c, s + t, n + m, v, r)
  {
    assert (s + t)[..n + m] == s + t[..m] && s[..n] == s;
    PatchOneMore(a.words, s, t[..m], v, if a.saved == None then 0 else a.saved.value);
    if Settled(elf, a.words, s + t, v) {
      assert forall x :: x in s || x in t ==> x in s + t;
      NothingLeftToPatch(a.words, s, v, 0);
    }
  }

  /** An error ends the run over a longer list as well. */
  lemma OverwritesStops(elf: Elf, a: Image, b: Image, s: seq<nat>, t: seq<nat>, n: nat, v: nat, r: int)
    requires Overwrites(elf, a, b, s, n, v, r) && r != 0
    ensures Overwrites(elf, a, b, s + t, n, v, r)
  {
    assert (s + t)[..n] == s[..n];
    if Settled(elf, a.words, s + t, v) {
      assert forall x :: x in s ==> x in s + t;
    }
  }

  /** One more record without an error. */
  lemma OneMoreRecord(elf: Elf, isPlt: bool, symidx: nat, recs: seq<Reloc>, k: nat, a: Image, b: Image, c: Image,
                      n: nat, m: nat, v: nat)
    requires k < |recs| && n == |Slots(elf, isPlt, symidx, recs[..k])|
    requires Overwrites(elf, a, b, Slots(elf, isPlt, symidx, recs[..k]), n, v, 0)
    requires Overwrites(elf, b, c, Slots(elf, isPlt, symidx, [recs[k]]), m, v, 0)
    ensures n + m == |Slots(elf, isPlt, symidx, recs[..k + 1])|
    ensures Overwrites(elf, a, c, Slots(elf, isPlt, symidx, recs[..k + 1]), n + m, v, 0)
  {
    SlotsOfOneMore(elf, isPlt, symidx, recs, k);
    var s, t := Slots(elf, isPlt, symidx, recs[..k]), Slots(elf, isPlt, symidx, [recs[k]]);
    OverwritesThen(elf, a, b, c, s, t, n, m, v, 0);
  }

  lemma SlotsOfOneMore(elf: Elf, isPlt: bool, symidx: nat, recs: seq<Reloc>, k: nat)
    requires k < |recs|
    ensures Slots(elf, isPlt, symidx, recs[..k + 1])
            == Slots(elf, isPlt, symidx, recs[..k]) + Slots(elf, isPlt, symidx, [recs[k]])
  {
    SlotsSplit(elf, isPlt, symidx, recs[..k + 1], k);
    assert recs[..k + 1][..k] == recs[..k] && recs[..k + 1][k..] == [recs[k]];
  }

  /** One more record with an error. */
  lemma ErrorAtRecord(elf: Elf, isPlt: bool, symidx: nat, recs: seq<Reloc>, k: nat, a: Image, b: Image, c: Image,
                      n: nat, m: nat, v: nat, r: int)
    requires k < |recs| && n == |Slots(elf, isPlt, symidx, recs[..k])| && r != 0
    requires Overwrites(elf, a, b, Slots(elf, isPlt, symidx, recs[..k]), n, v, 0)
    requires Overwrites(elf, b, c, Slots(elf, isPlt, symidx, [recs[k]]), m, v, r)
    ensures Overwrites(elf, a, c, Slots(elf, isPlt, symidx, recs), n + m, v, r)
  {
    SlotsOfOneMore(elf, isPlt, symidx, recs, k);
    SlotsSplit(elf, isPlt, symidx, recs, k + 1);
    var s, t := Slots(elf, isPlt, symidx, recs[..k]), Slots(elf, isPlt, symidx, [recs[k]]);
    OverwritesThen(elf, a, b, c, s, t, n, m, v, r);
    OverwritesStops(elf, a, c, s + t, Slots(elf, isPlt, symidx, recs[k + 1..]), n + m, v, r);
  }

  /** The slots of a part of the records are mapped as those of all are. */
  lemma OneIsMapped(elf: Elf, isPlt: bool, symidx: nat, recs: seq<Reloc>, k: nat,
                    was: map<nat, nat>, now: map<nat, nat>)
    requires k < |recs| && Mapped(elf, was, Slots(elf, isPlt, symidx, recs)) && was.Keys <= now.Keys
    ensures Mapped(elf, now, Slots(elf, isPlt, symidx, [recs[k]]))
  {
    forall x | x in Slots(elf, isPlt, symidx, [recs[k]])
      ensures x in Slots(elf, isPlt, symidx, recs)
    {
      SlotsAreAllMatches(elf, isPlt, symidx, [recs[k]], x);
      SlotsAreAllMatches(elf, isPlt, symidx, recs, x);
    }
  }

  const PROT_READ_WRITE := 3

  /** The iterator is going to hand out the records from `k` on. */
  ghost predicate StillPacked(it: Packed.Iterator, recs: seq<Reloc>, k: nat)
    reads it, it.decoder
  {
    && it.Valid() && k <= |recs|
    && recs[k..] == Unpacked(Packed.HandedOut(it.rela, it.decoder.data, it.decoder.bits, it.State()))
  }

  /** All matching records among the first `k` have been overwritten. */
  ghost predicate Hooked(elf: Elf, was: Image, now: Image, symidx: nat, recs: seq<Reloc>, k: nat, n: nat, v: nat) {
    && k <= |recs| && was.words.Keys <= now.words.Keys && n == |Slots(elf, false, symidx, recs[..k])|
    && Overwrites(elf, was, now, Slots(elf, false, symidx, recs[..k]), n, v, 0)
  }

  /** What replacing the word at `addr` asks for, when it answers `r`: the protection of the word; where it is not
      readable and writable, to make it so; and, if that is granted, to give it its old protection back. */
  ghost predicate Dialogue(addr: nat, talk: seq<Request>, r: int) {
    && talk != [] && talk[0].Query? && talk[0].addr == addr
    && if talk[0].answer != 0 then |talk| == 1 && r == talk[0].answer
       else if talk[0].prot == 3 then |talk| == 1 && r == 0
       else
         && |talk| > 1 && talk[1] == Protect(addr, 3, talk[1].answer)
         && if talk[1].answer != 0 then |talk| == 2 && r == talk[1].answer
            else |talk| == 3 && talk[2] == Protect(addr, talk[0].prot, talk[2].answer) && r == 0
  }

  /** The words in memory by address, and what has been asked about protections. */
  class Process {
    var words: map<nat, nat>
    var asked: seq<Request>

    /** xh_util_get_addr_protect; module MemProtect has what it answers. */
    method AddrProtect(addr: nat) returns (r: int, prot: nat)
      modifies `asked
      ensures r in {0, XH_ERRNO_BADMAPS, XH_ERRNO_SEGVERR} && asked == old(asked) + [Query(addr, prot, r)]
    {
      if * {
        r := XH_ERRNO_BADMAPS;
      } else if * {
        r := XH_ERRNO_SEGVERR;
      } else {
        r := 0;
      }
      prot := *;
      asked := asked + [Query(addr, prot, r)];
    }

    /** xh_util_set_addr_protect, which the kernel may refuse. */
    method SetAddrProtect(addr: nat, prot: nat) returns (r: int)
      modifies `asked
      ensures r in {0, XH_ERRNO_UNKNOWN} && asked == old(asked) + [Protect(addr, prot, r)]
    {
      if * {
        r := XH_ERRNO_UNKNOWN;
      } else {
        r := 0;
      }
      asked := asked + [Protect(addr, prot, r)];
    }

    method ReplaceFunction(addr: nat, newFunc: nat, old_: Cell?) returns (r: int)
      requires addr in words
      modifies `words, `asked, old_
      ensures words == if r == 0 then old(words)[addr := newFunc] else old(words)
      ensures old_ != null ==>
        old_.value == if r == 0 && old(words[addr]) != newFunc then old(words[addr]) else old(old_.value)
      ensures old(words[addr]) == newFunc ==> r == 0 && asked == old(asked)
      ensures old(words[addr]) != newFunc ==> old(asked) <= asked && Dialogue(addr, asked[|old(asked)|..], r)
    {
      if words[addr] == newFunc { return 0; }
      var oldProt;
      r, oldProt := AddrProtect(addr);
      if r != 0 { return; }
      if oldProt != PROT_READ_WRITE {
        r := SetAddrProtect(addr, PROT_READ_WRITE);
        if r != 0 { return; }
      }
      var oldAddr := words[addr];
      if old_ != null { old_.value := oldAddr; }
      words := words[addr := newFunc];
      if oldProt != PROT_READ_WRITE {
        var _ := SetAddrProtect(addr, oldProt);
      }
      r := 0;
    }

    /** Memory, the saved function and what has been asked. */
    ghost function Now(old_: Cell?): Image
      reads this, old_
    {
      Image(words, if old_ == null then None else Some(old_.value), asked)
    }

    method FindAndReplace(elf: Elf, isPlt: bool, newFunc: nat, old_: Cell?, symidx: nat, rec: Reloc)
      returns (r: int, found: bool, ghost n: nat)
      requires Mapped(elf, words, Slots(elf, isPlt, symidx, [rec]))
      modifies `words, `asked, old_
      ensures found == Matches(elf, isPlt, symidx, rec)
      ensures found <==> Refers(elf, if isPlt then {elf.jumpSlot} else {elf.globDat, elf.abs}, symidx, rec.info)
      ensures !found ==> r == 0 && Now(old_) == old(Now(old_))
      ensures found && (elf.biasAddr + rec.offset) % Pow2(elf.bits) < elf.baseAddr ==>
        r == XH_ERRNO_FORMAT && Now(old_) == old(Now(old_))
      ensures found && r == 0 ==> words == old(words)[(elf.biasAddr + rec.offset) % Pow2(elf.bits) := newFunc]
      ensures Overwrites(elf, old(Now(old_)), Now(old_), Slots(elf, isPlt, symidx, [rec]), n, newFunc, r)
    {
      r, found, n := 0, false, 0;
      MatchesMeans(elf, isPlt, symidx, rec);
      if SymOf(elf.bits, rec.info) != symidx { return; }
      var type_ := TypeOf(elf.bits, rec.info);
      if isPlt && type_ != elf.jumpSlot { return; }
      if !isPlt && type_ != elf.globDat && type_ != elf.abs { return; }
      found := true;
      var addr := SlotOf(elf, rec);
      assert Slots(elf, isPlt, symidx, [rec]) == [addr] && addr in [addr] && [addr][..1] == [addr];
      PatchOne(words, addr, newFunc, if old_ == null then 0 else old_.value);
      if addr < elf.baseAddr { return XH_ERRNO_FORMAT, true, 0; }
      r := ReplaceFunction(addr, newFunc, old_);
      n := if r == 0 then 1 else 0;
    }

    method HookDyn(elf: Elf, newFunc: nat, old_: Cell?, symidx: nat) returns (r: int, ghost n: nat)
      requires TablesReadable(elf)
      requires Mapped(elf, words, DynSlots(elf, symidx))
      modifies `words, `asked, old_
      ensures Overwrites(elf, old(Now(old_)), Now(old_), DynSlots(elf, symidx), n, newFunc, r)
    {
      if elf.dyn == None { return 0, 0; }
      var table := elf.dyn.value;
      ghost var was, recs, k := Now(old_), Handed(elf, elf.dyn), 0;
      var it := new Plain.Iterator(table.size, elf.bits, elf.rela);
      n := 0;
      while true
        invariant it.At(table, k)
        invariant n == |Slots(elf, false, symidx, recs[..k])| && was.words.Keys <= words.Keys
        invariant Overwrites(elf, was, Now(old_), Slots(elf, false, symidx, recs[..k]), n, newFunc, 0)
        decreases |recs| - k
      {
        var rec := it.NextRecord(table, k);
        if rec == None { break; }
        r, n := HookRecord(elf, false, newFunc, old_, symidx, rec.value, was, recs, k, n);
        if r != 0 { return; }
        k := k + 1;
      }
      assert recs[..k] == recs;
      r := 0;
    }

    /** One turn of a loop over the records `recs`. */
    method HookRecord(elf: Elf, isPlt: bool, newFunc: nat, old_: Cell?, symidx: nat, rec: Reloc,
                      ghost was: Image, ghost recs: seq<Reloc>, ghost k: nat, ghost n: nat)
      returns (r: int, ghost n': nat)
      requires k < |recs| && rec == recs[k] && n == |Slots(elf, isPlt, symidx, recs[..k])|
      requires Mapped(elf, was.words, Slots(elf, isPlt, symidx, recs)) && was.words.Keys <= words.Keys
      requires Overwrites(elf, was, Now(old_), Slots(elf, isPlt, symidx, recs[..k]), n, newFunc, 0)
      modifies `words, `asked, old_
      ensures was.words.Keys <= words.Keys
      ensures if r == 0 then
          n' == |Slots(elf, isPlt, symidx, recs[..k + 1])|
          && Overwrites(elf, was, Now(old_), Slots(elf, isPlt, symidx, recs[..k + 1]), n', newFunc, 0)
        else Overwrites(elf, was, Now(old_), Slots(elf, isPlt, symidx, recs), n', newFunc, r)
    {
      ghost var b, m := Now(old_), 0;
      OneIsMapped(elf, isPlt, symidx, recs, k, was.words, words);
      var found;
      r, found, m := FindAndReplace(elf, isPlt, newFunc, old_, symidx, rec);
      PatchedWords(b.words, Slots(elf, isPlt, symidx, [recs[k]])[..m], newFunc);
      if r == 0 {
        OneMoreRecord(elf, isPlt, symidx, recs, k, was, b, Now(old_), n, m, newFunc);
      } else {
        ErrorAtRecord(elf, isPlt, symidx, recs, k, was, b, Now(old_), n, m, newFunc, r);
      }
      n' := n + m;
    }

    /** Next, and the record that its caller then reads. */
    method NextUnpacked(it: Packed.Iterator, ghost recs: seq<Reloc>, ghost k: nat) returns (rec: Option<Reloc>)
      requires StillPacked(it, recs, k)
      modifies it, it.decoder
      ensures k < |recs| ==> rec == Some(recs[k]) && StillPacked(it, recs, k + 1)
      ensures k == |recs| ==> rec == None
    {
      ghost var rest := recs[k..];
      var record := it.Next();
      rec := if record == None then None else Some(Plain.Reloc(record.value.offset, record.value.info));
      if rec.Some? {
        assert recs[k + 1..] == rest[1..];
      }
    }

    /** A table that cannot be opened hands out nothing. */
    method OpenAndroid(elf: Elf) returns (it: Packed.Iterator)
      requires elf.android.Some?
      ensures fresh(it) && fresh(it.decoder) && StillPacked(it, HandedAndroid(elf), 0)
    {
      it := new Packed.Iterator(elf.android.value, elf.bits, elf.rela);
      var _ := it.Init();
    }

    method HookAndroid(elf: Elf, newFunc: nat, old_: Cell?, symidx: nat) returns (r: int, ghost n: nat)
      requires Mapped(elf, words, AndroidSlots(elf, symidx))
      modifies `words, `asked, old_
      ensures Overwrites(elf, old(Now(old_)), Now(old_), AndroidSlots(elf, symidx), n, newFunc, r)
    {
      if elf.android == None { return 0, 0; }
      var it := OpenAndroid(elf);
      r, n := HookUnpacked(elf, newFunc, old_, symidx, it, HandedAndroid(elf));
    }

    method HookUnpacked(elf: Elf, newFunc: nat, old_: Cell?, symidx: nat, it: Packed.Iterator, ghost recs: seq<Reloc>)
      returns (r: int, ghost n: nat)
      requires StillPacked(it, recs, 0) && Mapped(elf, words, Slots(elf, false, symidx, recs))
      modifies `words, `asked, old_, it, it.decoder
      ensures Overwrites(elf, old(Now(old_)), Now(old_), Slots(elf, false, symidx, recs), n, newFunc, r)
    {
      ghost var was, k := Now(old_), 0;
      var done := false;
      r, n := 0, 0;
      while !done
        invariant done || StillPacked(it, recs, k)
        invariant if done then Overwrites(elf, was, Now(old_), Slots(elf, false, symidx, recs), n, newFunc, r)
                  else Hooked(elf, was, Now(old_), symidx, recs, k, n, newFunc)
        decreases !done, |recs| - k
      {
        done, r, n := HookNext(elf, newFunc, old_, symidx, it, was, recs, k, n);
        k := k + 1;
      }
    }

    /** One turn of the loop over the packed records. */
    method HookNext(elf: Elf, newFunc: nat, old_: Cell?, symidx: nat, it: Packed.Iterator,
                    ghost was: Image, ghost recs: seq<Reloc>, ghost k: nat, ghost n: nat)
      returns (done: bool, r: int, ghost n': nat)
      requires StillPacked(it, recs, k) && Mapped(elf, was.words, Slots(elf, false, symidx, recs))
      requires Hooked(elf, was, Now(old_), symidx, recs, k, n, newFunc)
      modifies `words, `asked, old_, it, it.decoder
      ensures done || StillPacked(it, recs, k + 1)
      ensures if done then Overwrites(elf, was, Now(old_), Slots(elf, false, symidx, recs), n', newFunc, r)
              else Hooked(elf, was, Now(old_), symidx, recs, k + 1, n', newFunc)
    {
      var rec := NextUnpacked(it, recs, k);
      if rec == None {
        assert recs[..k] == recs;
        return true, 0, n;
      }
      r, n' := HookRecord(elf, false, newFunc, old_, symidx, rec.value, was, recs, k, n);
      done := r != 0;
    }

    /** The first matching record of the PLT ends the loop. */
    method HookPlt(elf: Elf, newFunc: nat, old_: Cell?, symidx: nat) returns (r: int, ghost n: nat)
      requires TablesReadable(elf) && Mapped(elf, words, PltSlots(elf, symidx))
      modifies `words, `asked, old_
      ensures Overwrites(elf, old(Now(old_)), Now(old_), PltSlots(elf, symidx), n, newFunc, r)
    {
      if elf.plt == None { return 0, 0; }
      var table := elf.plt.value;
      ghost var was, recs, k := Now(old_), Handed(elf, elf.plt), 0;
      var it := new Plain.Iterator(table.size, elf.bits, elf.rela);
      var done := false;
      r, n := 0, 0;
      while !done
        invariant done || (it.At(table, k) && Now(old_) == was && Slots(elf, true, symidx, recs[..k]) == [])
        invariant done ==> Overwrites(elf, was, Now(old_), First(Slots(elf, true, symidx, recs)), n, newFunc, r)
        decreases !done, |recs| - k
      {
        done, r, n := HookPltNext(elf, newFunc, old_, symidx, it, table, recs, k);
        k := k + 1;
      }
    }

    /** One turn of the loop over the PLT, with no match before record `k`. */
    method HookPltNext(elf: Elf, newFunc: nat, old_: Cell?, symidx: nat, it: Plain.Iterator, table: Plain.PlainTable,
                       ghost recs: seq<Reloc>, ghost k: nat)
      returns (done: bool, r: int, ghost n: nat)
      requires it.At(table, k) && it.entrySize == Plain.EntrySize(elf.bits, elf.rela)
      requires recs == Plain.HandedOut(table, it.entrySize) && Slots(elf, true, symidx, recs[..k]) == []
      requires Mapped(elf, words, First(Slots(elf, true, symidx, recs)))
      modifies `words, `asked, old_, it
      ensures done || (k < |recs| && it.At(table, k + 1) && Now(old_) == old(Now(old_))
                       && Slots(elf, true, symidx, recs[..k + 1]) == [])
      ensures done ==>
        Overwrites(elf, old(Now(old_)), Now(old_), First(Slots(elf, true, symidx, recs)), n, newFunc, r)
    {
      var rec := it.NextRecord(table, k);
      if rec == None {
        assert recs[..k] == recs;
        return true, 0, 0;
      }
      FirstSlot(elf, symidx, recs, k);
      var found;
      r, found, n := FindAndReplace(elf, true, newFunc, old_, symidx, rec.value);
      done := r != 0 || found;
    }

    /** `inited` is false for an object without a pathname; a missing name and the function 0 stand for NULL. */
    method Hook(inited: bool, elf: Elf, symbol: Option<Name>, newFunc: nat, old_: Cell?)
      returns (r: int, ghost n: nat)
      requires inited ==> TableHolds(elf.symbols) && TablesReadable(elf)
      requires inited && symbol.Some? ==> Mapped(elf, words, AllTargets(elf, symbol.value))
      modifies `words, `asked, old_
      ensures if !inited then r == XH_ERRNO_ELFINIT && Now(old_) == old(Now(old_))
              else if symbol == None || newFunc == 0 then r == XH_ERRNO_INVAL && Now(old_) == old(Now(old_))
              else Overwrites(elf, old(Now(old_)), Now(old_), AllTargets(elf, symbol.value), n, newFunc, r)
    {
      n := 0;
      if !inited { return XH_ERRNO_ELFINIT, 0; }
      if symbol == None || newFunc == 0 { return XH_ERRNO_INVAL, 0; }
      var symidx;
      r, symidx := FindSymidx(elf.symbols, symbol.value);
      if r != 0 { return 0, 0; }
      r, n := HookTables(elf, newFunc, old_, symidx);
    }

    /** The three loops, one after the other. */
    method HookTables(elf: Elf, newFunc: nat, old_: Cell?, symidx: nat) returns (r: int, ghost n: nat)
      requires TablesReadable(elf) && Mapped(elf, words, Targets(elf, symidx))
      modifies `words, `asked, old_
      ensures Overwrites(elf, old(Now(old_)), Now(old_), Targets(elf, symidx), n, newFunc, r)
    {
      ghost var s, t := PltSlots(elf, symidx), DataTargets(elf, symidx);
      ghost var a := Now(old_);
      MappedParts(elf, words, s, t);
      r, n := HookPlt(elf, newFunc, old_, symidx);
      if r != 0 {
        OverwritesStops(elf, a, Now(old_), s, t, n, newFunc, r);
        return;
      }
      r, n := HookData(elf, newFunc, old_, symidx, a, s, n);
    }

    /** The loops over the other tables, with the slots `s` overwritten before. */
    method HookData(elf: Elf, newFunc: nat, old_: Cell?, symidx: nat, ghost a: Image, ghost s: seq<nat>, ghost n: nat)
      returns (r: int, ghost n': nat)
      requires TablesReadable(elf) && Mapped(elf, a.words, DataTargets(elf, symidx))
      requires Overwrites(elf, a, Now(old_), s, n, newFunc, 0)
      modifies `words, `asked, old_
      ensures Overwrites(elf, a, Now(old_), s + DataTargets(elf, symidx), n', newFunc, r)
    {
      ghost var t, u := DynSlots(elf, symidx), AndroidSlots(elf, symidx);
      ghost var b, m := Now(old_), 0;
      MappedParts(elf, a.words, t, u);
      StillMapped(elf, a, b, s, t, n, newFunc);
      r, m := HookDyn(elf, newFunc, old_, symidx);
      OverwritesThen(elf, a, b, Now(old_), s, t, n, m, newFunc, r);
      n' := n + m;
      if r != 0 {
        OverwritesStops(elf, a, Now(old_), s + t, u, n', newFunc, r);
        InTurn(s, t, u);
        return;
      }
      r, n' := HookPacked(elf, newFunc, old_, symidx, a, s + t, n');
      InTurn(s, t, u);
    }

    method HookPacked(elf: Elf, newFunc: nat, old_: Cell?, symidx: nat, ghost a: Image, ghost s: seq<nat>, ghost n: nat)
      returns (r: int, ghost n': nat)
      requires Mapped(elf, a.words, AndroidSlots(elf, symidx))
      requires Overwrites(elf, a, Now(old_), s, n, newFunc, 0)
      modifies `words, `asked, old_
      ensures Overwrites(elf, a, Now(old_), s + AndroidSlots(elf, symidx), n', newFunc, r)
    {
      ghost var u, b, m := AndroidSlots(elf, symidx), Now(old_), 0;
      StillMapped(elf, a, b, s, u, n, newFunc);
      r, m := HookAndroid(elf, newFunc, old_, symidx);
      n' := n + m;
      OverwritesThen(elf, a, b, Now(old_), s, u, n, m, newFunc, r);
      assert Now(old_).words == WordsAfter(a, (s + u)[..n'], newFunc)
             && Now(old_).saved == SavedAfter(a, (s + u)[..n'], newFunc);
    }
  }

  lemma InTurn(s: seq<nat>, t: seq<nat>, u: seq<nat>)
    ensures s + t + u == s + (t + u)
  {
  }

  lemma MappedParts(elf: Elf, words: map<nat, nat>, s: seq<nat>, t: seq<nat>)
    requires Mapped(elf, words, s + t)
    ensures Mapped(elf, words, s) && Mapped(elf, words, t)
  {
    assert forall x :: x in s || x in t ==> x in s + t;
  }

  lemma StillMapped(elf: Elf, a: Image, b: Image, s: seq<nat>, t: seq<nat>, n: nat, v: nat)
    requires Overwrites(elf, a, b, s, n, v, 0) && Mapped(elf, a.words, t)
    ensures Mapped(elf, b.words, t)
  {
    PatchedWords(a.words, s[..n], v);
  }

  // ----- what a hook promises

  /** A hook that returns 0 leaves the new function in every target, no other word has changed, and the saved function
      is one that stood in a target before and is not the new one. */
  lemma HookedEverywhere(elf: Elf, was: Image, now: Image, slots: seq<nat>, n: nat, v: nat)
    requires Overwrites(elf, was, now, slots, n, v, 0) && Mapped(elf, was.words, slots)
    ensures now.words.Keys == was.words.Keys
    ensures forall a :: a in now.words ==> now.words[a] == if a in slots then v else was.words[a]
    ensures was.saved.Some? ==>
      now.saved.Some? &&
      if exists a :: a in slots && was.words[a] != v
      then now.saved.value != v && exists a :: a in slots && was.words[a] == now.saved.value
      else now.saved == was.saved
  {
    assert slots[..n] == slots;
    PatchedWords(was.words, slots, v);
    if was.saved.Some? {
      SavedIsAnOldFunction(was.words, slots, v, was.saved.value);
    }
  }

  /** Spelled out: after a hook that returns 0 the new function is in the targets, and no other word has changed. */
  lemma HookedMeans(elf: Elf, was: Image, now: Image, symidx: nat, n: nat, v: nat)
    requires TablesReadable(elf) && Overwrites(elf, was, now, Targets(elf, symidx), n, v, 0)
    requires Mapped(elf, was.words, Targets(elf, symidx))
    ensures now.words.Keys == was.words.Keys
    ensures forall a :: a in now.words ==> now.words[a] == if IsTarget(elf, symidx, a) then v else was.words[a]
  {
    HookedEverywhere(elf, was, now, Targets(elf, symidx), n, v);
    forall a | a in now.words
      ensures a in Targets(elf, symidx) <==> IsTarget(elf, symidx, a)
    {
      TargetsMean(elf, symidx, a);
    }
  }

  /** A second run changes nothing, and asks for nothing. */
  lemma SecondRunChangesNothing(elf: Elf, a: Image, b: Image, c: Image, slots: seq<nat>, n: nat, m: nat, v: nat, r: int)
    requires Overwrites(elf, a, b, slots, n, v, 0) && Overwrites(elf, b, c, slots, m, v, r)
    requires Mapped(elf, a.words, slots)
    ensures r == 0 && c == b
  {
    HookedEverywhere(elf, a, b, slots, n, v);
    assert slots[..m] == slots;
    NothingLeftToPatch(b.words, slots, v, if b.saved == None then 0 else b.saved.value);
  }

  /** Before the first match nothing is found, and there the first slot is found. */
  lemma FirstSlot(elf: Elf, symidx: nat, recs: seq<Reloc>, k: nat)
    requires k < |recs| && Slots(elf, true, symidx, recs[..k]) == []
    ensures Slots(elf, true, symidx, recs[..k + 1]) == Slots(elf, true, symidx, [recs[k]])
    ensures Matches(elf, true, symidx, recs[k])
            ==> First(Slots(elf, true, symidx, recs)) == Slots(elf, true, symidx, [recs[k]])
    ensures !Matches(elf, true, symidx, recs[k]) ==> Slots(elf, true, symidx, [recs[k]]) == []
  {
    SlotsOfOneMore(elf, true, symidx, recs, k);
    SlotsSplit(elf, true, symidx, recs, k);
    SlotsSplit(elf, true, symidx, recs[k..], 1);
    assert recs[k..][..1] == [recs[k]];
  }
}
