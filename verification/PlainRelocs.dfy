/** The iterator of xh_elf.c over a table of plain relocations.

    It steps forward before it hands out a record. */
module PlainRelocs {
  import opened Words
  import opened Wrappers

  datatype Reloc = Reloc(offset: nat, info: nat)

  /** `records` is the memory from the start of a table on, one record after the other; the table takes `size` bytes
      of it. */
  datatype PlainTable = PlainTable(size: nat, records: seq<Reloc>)

  /** sizeof(ElfW(Rela)) or sizeof(ElfW(Rel)). */
  function EntrySize(bits: nat, rela: bool): (n: nat)
    ensures n > 0
  {
    if bits == 64 then (if rela then 24 else 16) else if rela then 12 else 8
  }

  /** An entry has the words offset and info, and with `rela` also addend. */
  lemma EntryIsWords(bits: nat, rela: bool)
    requires bits in {32, 64}
    ensures EntrySize(bits, rela) == (if rela then 3 else 2) * (bits / 8)
  {
  }

  /** The number of entries of a table; the last one may be cut off. */
  function Entries(table: PlainTable, entrySize: nat): nat
    requires entrySize > 0
  {
    (table.size + entrySize - 1) / entrySize
  }

  /** The memory reaches as far as the iterator does: one record past the end. */
  predicate Readable(table: PlainTable, entrySize: nat)
    requires entrySize > 0
  {
    Entries(table, entrySize) < |table.records|
  }

  /** What the iterator hands out. */
  function HandedOut(table: PlainTable, entrySize: nat): seq<Reloc>
    requires entrySize > 0 && Readable(table, entrySize)
  {
    table.records[1..Entries(table, entrySize) + 1]
  }

  /** After `k` records the iterator goes on exactly if there are more than `k` entries. */
  lemma MoreToCome(size: nat, entrySize: nat, k: nat)
    requires entrySize > 0
    ensures k * entrySize < size <==> k < (size + entrySize - 1) / entrySize
    ensures k * entrySize / entrySize == k
  {
    var n := (size + entrySize - 1) / entrySize;
    var rest := (size + entrySize - 1) % entrySize;
    assert size + entrySize - 1 == n * entrySize + rest;
    if k < n {
      Distribute(n - 1 - k, k, entrySize);
      Distribute(n - 1, 1, entrySize);
    } else {
      Distribute(k - n, n, entrySize);
    }
    ModUnique(k * entrySize, k, 0, entrySize);
  }

  class Iterator {
    const entrySize: nat
    const end: nat
    var cur: nat

    constructor (size: nat, bits: nat, rela: bool)
      ensures entrySize == EntrySize(bits, rela) && end == size && cur == 0
    {
      entrySize, end, cur := EntrySize(bits, rela), size, 0;
    }

    /** The place of the next record, if `cur` is still in the table. */
    method Next() returns (place: Option<nat>)
      modifies this
      ensures old(cur) >= end ==> place == None && cur == old(cur)
      ensures old(cur) < end ==> cur == old(cur) + entrySize && place == Some(cur)
    {
      if cur >= end { return None; }
      cur := cur + entrySize;
      place := Some(cur);
    }

    /** `k` records have been handed out. */
    ghost predicate At(table: PlainTable, k: nat)
      reads this
    {
      && end == table.size && entrySize > 0 && Readable(table, entrySize)
      && k <= Entries(table, entrySize) && cur == k * entrySize
    }

    /** Next, and the record that its caller then reads. */
    method NextRecord(table: PlainTable, ghost k: nat) returns (rec: Option<Reloc>)
      requires At(table, k)
      modifies this
      ensures k < Entries(table, entrySize) ==> rec == Some(HandedOut(table, entrySize)[k]) && At(table, k + 1)
      ensures k == Entries(table, entrySize) ==> rec == None
    {
      MoreToCome(table.size, entrySize, k);
      MoreToCome(table.size, entrySize, k + 1);
      Distribute(k, 1, entrySize);
      var place := Next();
      rec := if place == None then None else Some(table.records[place.value / entrySize]);
    }
  }

  /** `count` places in a table, from that of record number `first` on. */
  ghost function Places(count: nat, entrySize: nat, first: nat): (places: seq<nat>)
    ensures |places| == count && forall k :: 0 <= k < count ==> places[k] == (first + k) * entrySize
  {
    seq(count, k requires 0 <= k => (first + k) * entrySize)
  }

  /** All records of a table, one after the other, as its caller gets them, and the places that the iterator has
      answered for them. */
  method All(table: PlainTable, bits: nat, rela: bool) returns (out: seq<Reloc>, ghost places: seq<nat>)
    requires Readable(table, EntrySize(bits, rela))
    ensures out == HandedOut(table, EntrySize(bits, rela))
    ensures places == Places(Entries(table, EntrySize(bits, rela)), EntrySize(bits, rela), 1)
  {
    var it := new Iterator(table.size, bits, rela);
    out, places := [], [];
    while true
      invariant it.At(table, |out|) && out == HandedOut(table, it.entrySize)[..|out|]
      invariant places == Places(|out|, it.entrySize, 1)
      decreases Entries(table, it.entrySize) - |out|
    {
      var rec := it.NextRecord(table, |out|);
      if rec == None { break; }
      out := out + [rec.value];
      places := places + [it.cur];
    }
  }

  /** The places that the iterator answers are those of the table if and only if the table is empty. */
  lemma HandsOutTheTableIffEmpty(table: PlainTable, entrySize: nat)
    requires entrySize > 0
    ensures Places(Entries(table, entrySize), entrySize, 1) == Places(Entries(table, entrySize), entrySize, 0)
            <==> table.size == 0
  {
    MoreToCome(table.size, entrySize, 0);
    if table.size != 0 {
      assert Places(Entries(table, entrySize), entrySize, 1)[0] == entrySize;
    }
  }

  /** So the records are those of the table just where all of them, and the one past its end, are the same. */
  lemma {:induction false} SameRecordsIff(table: PlainTable, entrySize: nat)
    requires entrySize > 0 && Readable(table, entrySize)
    ensures var n := Entries(table, entrySize);
      HandedOut(table, entrySize) == table.records[..n]
      <==> forall k :: 0 <= k <= n ==> table.records[k] == table.records[0]
  {
    var n := Entries(table, entrySize);
    if HandedOut(table, entrySize) == table.records[..n] {
      for k := 0 to n
        invariant forall j :: 0 <= j <= k ==> table.records[j] == table.records[0]
      {
        assert HandedOut(table, entrySize)[k] == table.records[..n][k];
      }
    } else if forall k :: 0 <= k <= n ==> table.records[k] == table.records[0] {
      forall k | 0 <= k < n
        ensures HandedOut(table, entrySize)[k] == table.records[..n][k]
      {
        assert table.records[k + 1] == table.records[0] && table.records[k] == table.records[0];
      }
    }
  }
}
