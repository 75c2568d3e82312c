/** Symbol lookup of xh_elf.c through the SysV and the GNU hash table. */
module ElfHash {
  import opened Arithmetic
  import opened Errno
  import opened Words

  /** The bytes of a C string before its NUL. */
  type Name = seq<byte>

  // ----- the SysV hash table

  const TWO_TO_THE_32 := 0x1_0000_0000
  const HIGH_BITS := 0xf000_0000

  /** The function of the System V gABI, chapter 5, "Hash Table", in words of 32 bits. */
  function GabiHash(name: Name): nat {
    if name == [] then 0
    else GabiFold((GabiHash(name[..|name| - 1]) * 16 + name[|name| - 1]) % TWO_TO_THE_32)
  }

  /** What the gABI does with the four high bits. */
  function GabiFold(h: nat): nat {
    var g := And(h, HIGH_BITS);
    And(if g != 0 then Xor(h, g / 0x100_0000) else h, 0xffff_ffff - g)
  }

  /** AND and exclusive OR of words whose four high bits are `q` and `r`. */
  lemma HighAndLow(a: nat, b: nat, q: nat, r: nat)
    requires a < 0x1000_0000 && b < 0x1000_0000
    ensures And(a + q * 0x1000_0000, b + r * 0x1000_0000) == And(a, b) + And(q, r) * 0x1000_0000
    ensures Xor(a + q * 0x1000_0000, b + r * 0x1000_0000) == Xor(a, b) + Xor(q, r) * 0x1000_0000
    ensures Xor(a, b) < 0x1000_0000
  {
    Pow2Values();
    AndSplit(a, b, 28, q, r);
    XorSplit(a, b, 28, q, r);
    XorIsBelow(a, b, 28);
  }

  lemma Masks(x: nat, q: nat)
    requires x < 0x1000_0000 && q < 16
    ensures And(x, 0xfff_ffff) == x && And(q, 15) == q && And(q, 15 - q) == 0
  {
    Pow2Values();
    AndOnes(x, 28);
    AndOnes(q, 4);
  }

  /** The high bits, and what is left without them. */
  lemma HighBits(m: nat, q: nat)
    requires m < 0x1000_0000 && q < 16
    ensures var h, g := m + q * 0x1000_0000, q * 0x1000_0000;
      And(h, HIGH_BITS) == g && Xor(h, g) == m
  {
    HighAndLow(m, 0, q, 15);
    Masks(m, q);
    HighAndLow(m, 0, q, q);
    XorSelf(q);
  }

  lemma FoldedIn(m: nat, q: nat)
    requires m < 0x1000_0000 && q < 16
    ensures var x := Xor(m, q * 16);
      Xor(m + q * 0x1000_0000, q * 16) == x + q * 0x1000_0000 && x < 0x1000_0000
  {
    HighAndLow(m, q * 16, q, 0);
  }

  lemma Cleared(x: nat, q: nat)
    requires x < 0x1000_0000 && q < 16
    ensures And(x + q * 0x1000_0000, 0xffff_ffff - q * 0x1000_0000) == x
  {
    HighAndLow(x, 0xfff_ffff, q, 15 - q);
    Masks(x, q);
  }

  lemma GabiFoldOf(h: nat, m: nat, q: nat)
    requires m < 0x1000_0000 && q < 16 && h == m + q * 0x1000_0000
    ensures GabiFold(h) == Xor(m, q * 16) < 0x1000_0000
  {
    HighBits(m, q);
    FoldedIn(m, q);
    Cleared(Xor(m, q * 16), q);
    assert q == 0 ==> Xor(m, q * 16) == m;
  }

  /** xh_elf_hash clears the high bits first and does without the test. */
  lemma SameFold(h: nat)
    requires h < TWO_TO_THE_32
    ensures Xor(Xor(h, And(h, HIGH_BITS)), And(h, HIGH_BITS) / 0x100_0000) == GabiFold(h)
    ensures GabiFold(h) < 0x1000_0000
  {
    var m, q := h % 0x1000_0000, h / 0x1000_0000;
    HighBits(m, q);
    GabiFoldOf(h, m, q);
  }

  lemma OneMoreChar(name: Name, k: nat)
    requires k < |name|
    ensures GabiHash(name[..k + 1]) == GabiFold((GabiHash(name[..k]) * 16 + name[k]) % TWO_TO_THE_32)
  {
    assert name[..k + 1][..k] == name[..k];
  }

  method SysvHash(name: Name) returns (h: nat)
    ensures h == GabiHash(name) && h < 0x1000_0000
  {
    h := 0;
    var k := 0;
    while k < |name|
      invariant 0 <= k <= |name|
      invariant h == GabiHash(name[..k]) && h < 0x1000_0000
    {
      OneMoreChar(name, k);
      h := (h * 16 + name[k]) % TWO_TO_THE_32;
      SameFold(h);
      var g := And(h, HIGH_BITS);
      h := Xor(h, g);
      h := Xor(h, g / 0x100_0000);
      k := k + 1;
    }
    assert name[..k] == name;
  }

  /** The letters as the digits of a number to the base 16. */
  function Digits16(name: Name): nat {
    if name == [] then 0 else Digits16(name[..|name| - 1]) * 16 + name[|name| - 1]
  }

  /** As long as nothing folds, the hash is that number. */
  lemma {:induction false} HashOfShortName(name: Name)
    requires Digits16(name) < 0x1000_0000
    ensures GabiHash(name) == Digits16(name)
  {
    if name != [] {
      HashOfShortName(name[..|name| - 1]);
      NothingFolded(GabiHash(name[..|name| - 1]), name[|name| - 1]);
    }
  }

  lemma {:induction false} NothingFolded(h: nat, c: nat)
    requires h * 16 + c < 0x1000_0000
    ensures GabiFold((h * 16 + c) % TWO_TO_THE_32) == h * 16 + c
  {
    GabiFoldOf(h * 16 + c, h * 16 + c, 0);
  }

  /** A known value of the gABI function; the last letter of the name "syscall" makes it fold. */
  lemma {:induction false} HashOfSyscall(name: Name)
    requires name == [0x73, 0x79, 0x73, 0x63, 0x61, 0x6c, 0x6c]
    ensures GabiHash(name) == 0xb09985c
  {
    DigitsOfSyscall(name);
    HashOfShortName(name[..6]);
    FoldOfSyscall((GabiHash(name[..6]) * 16 + name[6]) % TWO_TO_THE_32);
    assert name[..|name| - 1] == name[..6];
  }

  lemma LowByte(high: nat, low: nat, x: nat)
    requires low < 256 && x < 256
    ensures Xor(high * 256 + low, x) == high * 256 + Xor(low, x)
  {
    assert Pow2(8) == 256 by {
      Pow2Sum(4, 4);
      Pow2Values();
    }
    XorSplit(low, x, 8, high, 0);
  }

  lemma DigitsOfSyscall(name: Name)
    requires name == [0x73, 0x79, 0x73, 0x63, 0x61, 0x6c, 0x6c]
    ensures Digits16(name[..6]) == 0x7b0997c
  {
    DigitsNext(name, 0, 0);
    DigitsNext(name, 1, 0x73);
    DigitsNext(name, 2, 0x7a9);
    DigitsNext(name, 3, 0x7b03);
    DigitsNext(name, 4, 0x7b093);
    DigitsNext(name, 5, 0x7b0991);
  }

  lemma {:induction false} DigitsNext(name: Name, k: nat, d: nat)
    requires k < |name| && Digits16(name[..k]) == d
    ensures Digits16(name[..k + 1]) == d * 16 + name[k]
  {
    assert name[..k + 1][..k] == name[..k];
  }

  lemma FoldOfSyscall(h: nat)
    requires h == 0x7b09982c
    ensures GabiFold(h) == 0xb09985c
  {
    GabiFoldOf(h, 0xb09982c, 7);
    LowByte(0xb0998, 0x2c, 0x70);
    assert Xor(0x2c, 0x70) == 0x5c;
  }

  /** `names[i]` is the name of symbol `i`. */
  datatype SysvTable = SysvTable(names: seq<Name>, bucket: seq<nat>, chain: seq<nat>)

  /** `row` lists the symbols of the chain that starts with `i`; so the chain ends. */
  ghost predicate Linked(t: SysvTable, i: nat, row: seq<nat>)
    decreases row
  {
    if row == [] then i == 0
    else i == row[0] && 0 < i < |t.names| && i < |t.chain| && Linked(t, t.chain[i], row[1..])
  }

  ghost predicate Chained(t: SysvTable, rows: seq<seq<nat>>) {
    |rows| == |t.bucket| > 0 && forall b :: 0 <= b < |rows| ==> Linked(t, t.bucket[b], rows[b])
  }

  /** The row in which a name has to be. */
  ghost function RowOf(t: SysvTable, rows: seq<seq<nat>>, name: Name): seq<nat>
    requires Chained(t, rows)
  {
    rows[GabiHash(name) % |t.bucket|]
  }

  /** Every symbol but number 0 is hashed. */
  ghost predicate AllHashed(t: SysvTable, rows: seq<seq<nat>>) {
    Chained(t, rows) && forall i :: 0 < i < |t.names| ==> i in RowOf(t, rows, t.names[i])
  }

  lemma SysvFormat(t: SysvTable, rows: seq<seq<nat>>, i: nat)
    requires AllHashed(t, rows) && 0 < i < |t.names|
    ensures i in rows[GabiHash(t.names[i]) % |t.bucket|]
  {
  }

  ghost predicate Named(names: seq<Name>, i: nat, symbol: Name) {
    i < |names| && names[i] == symbol
  }

  /** Finds the first symbol of its chain that has the name, if there is one. */
  method SysvLookup(t: SysvTable, symbol: Name, ghost rows: seq<seq<nat>>) returns (r: int, symidx: nat)
    requires Chained(t, rows)
    ensures r == 0 || r == XH_ERRNO_NOTFND
    ensures r == 0 ==> symidx != 0 && Named(t.names, symidx, symbol)
    ensures var row := RowOf(t, rows, symbol);
      if r == 0
      then exists k :: 0 <= k < |row| && row[k] == symidx && forall j :: 0 <= j < k ==> !Named(t.names, row[j], symbol)
      else forall j :: 0 <= j < |row| ==> !Named(t.names, row[j], symbol)
    ensures AllHashed(t, rows) ==> (r == 0 <==> exists i :: i != 0 && Named(t.names, i, symbol))
  {
    var hash := SysvHash(symbol);
    ghost var row := RowOf(t, rows, symbol);
    ghost var k := 0;
    symidx := t.bucket[hash % |t.bucket|];
    while symidx != 0
      invariant 0 <= k <= |row| && Linked(t, symidx, row[k..])
      invariant forall j :: 0 <= j < k ==> !Named(t.names, row[j], symbol)
      decreases |row| - k
    {
      if t.names[symidx] == symbol {
        return 0, symidx;
      }
      symidx := t.chain[symidx];
      k := k + 1;
    }
    r := XH_ERRNO_NOTFND;
  }

  // ----- the GNU hash table

  /** The hash as a number that never wraps: 5381 * 33^n + c[0] * 33^(n-1) + ... + c[n-1]. */
  function GnuSum(name: Name): nat {
    if name == [] then 5381 else 33 * GnuSum(name[..|name| - 1]) + name[|name| - 1]
  }

  function GnuHashOf(name: Name): nat {
    GnuSum(name) % TWO_TO_THE_32
  }

  lemma GnuStep(sum: nat, c: nat)
    ensures var h := sum % TWO_TO_THE_32;
      (h + (h * 32 % TWO_TO_THE_32 + c)) % TWO_TO_THE_32 == (33 * sum + c) % TWO_TO_THE_32
  {
  }

  method GnuHash(name: Name) returns (h: nat)
    ensures h == GnuHashOf(name)
  {
    h := 5381;
    var k := 0;
    while k < |name|
      invariant 0 <= k <= |name| && h == GnuHashOf(name[..k])
    {
      assert name[..k + 1][..k] == name[..k];
      GnuStep(GnuSum(name[..k]), name[k]);
      h := (h + (h * 32 % TWO_TO_THE_32 + name[k])) % TWO_TO_THE_32;
      k := k + 1;
    }
    assert name[..k] == name;
  }

  /** Known values. */
  lemma GnuHashOfSyscall(name: Name)
    requires name == [0x73, 0x79, 0x73, 0x63, 0x61, 0x6c, 0x6c]
    ensures GnuHashOf([]) == 0x1505 && GnuHashOf(name) == 0xbac212a0
  {
    GnuNext(name, 0, 5381);
    GnuNext(name, 1, 177688);
    GnuNext(name, 2, 5863825);
    GnuNext(name, 3, 193506340);
    GnuNext(name, 4, 6385709319);
    GnuNext(name, 5, 210728407624);
    GnuNext(name, 6, 6954037451700);
    assert name[..7] == name;
  }

  lemma GnuNext(name: Name, k: nat, sum: nat)
    requires k < |name| && GnuSum(name[..k]) == sum
    ensures GnuSum(name[..k + 1]) == 33 * sum + name[k]
  {
    assert name[..k + 1][..k] == name[..k];
  }

  /** The symbols from `symoffset` on are hashed; `bits` is the size of a word of the bloom filter. */
  datatype GnuTable = GnuTable(
    names: seq<Name>, symoffset: nat, bits: nat, bloom: seq<nat>, bloomShift: nat, bucket: seq<nat>, chain: seq<nat>)

  ghost predicate Shaped(t: GnuTable) {
    && t.bits > 0 && |t.bloom| > 0 && |t.bucket| > 0
    && 0 < t.symoffset <= |t.names| && |t.chain| == |t.names| - t.symoffset
  }

  ghost predicate Hashed(t: GnuTable, i: nat) {
    t.symoffset <= i < |t.names|
  }

  ghost function BucketOf(t: GnuTable, i: nat): nat
    requires Shaped(t) && Hashed(t, i)
  {
    GnuHashOf(t.names[i]) % |t.bucket|
  }

  function BloomWord(t: GnuTable, hash: nat): nat
    requires t.bits > 0 && |t.bloom| > 0
  {
    t.bloom[hash / t.bits % |t.bloom|]
  }

  /** The bloom filter has the two bits of every hashed symbol. */
  ghost predicate BloomHolds(t: GnuTable, i: nat)
    requires Shaped(t) && Hashed(t, i)
  {
    var hash := GnuHashOf(t.names[i]);
    && Bit(BloomWord(t, hash), hash % t.bits)
    && Bit(BloomWord(t, hash), hash / Pow2(t.bloomShift) % t.bits)
  }

  /** The chain has the hash of symbol `i`, its lowest bit replaced by the mark of the last one in a bucket. */
  ghost predicate ChainHolds(t: GnuTable, i: nat)
    requires Shaped(t) && Hashed(t, i)
  {
    var c := t.chain[i - t.symoffset];
    && c / 2 == GnuHashOf(t.names[i]) / 2
    && (c % 2 == 1 <==> i + 1 == |t.names| || BucketOf(t, i + 1) != BucketOf(t, i))
  }

  /** A bucket has the first of its symbols, or one that is not hashed if it has none. */
  ghost predicate BucketHolds(t: GnuTable, b: nat)
    requires Shaped(t) && b < |t.bucket|
  {
    && t.bucket[b] < |t.names|
    && (Hashed(t, t.bucket[b]) ==> BucketOf(t, t.bucket[b]) == b)
    && forall i | Hashed(t, i) && BucketOf(t, i) == b :: t.symoffset <= t.bucket[b] <= i
  }

  /** What the format asks of a table. */
  ghost predicate WellFormed(t: GnuTable) {
    && Shaped(t)
    && (forall i | Hashed(t, i) :: BloomHolds(t, i))
    && (forall i | Hashed(t, i) :: ChainHolds(t, i))
    && (forall b | 0 <= b < |t.bucket| :: BucketHolds(t, b))
    && (forall i, j | Hashed(t, i) && Hashed(t, j) && i <= j :: BucketOf(t, i) <= BucketOf(t, j))
  }

  /** Where the format keeps symbol `i`: two bits of one word of the bloom filter, at the place of its hash in words and
      with the hash and the shifted hash modulo the word size; a bucket by the hash modulo their number, with the first
      of its symbols; and its hash in the chain, odd at the end of the bucket alone. */
  lemma GnuFormat(t: GnuTable, i: nat)
    requires WellFormed(t) && t.symoffset <= i < |t.names|
    ensures var h, n := GnuHashOf(t.names[i]), |t.bucket|;
      && Bit(t.bloom[h / t.bits % |t.bloom|], h % t.bits)
      && Bit(t.bloom[h / t.bits % |t.bloom|], h / Pow2(t.bloomShift) % t.bits)
      && t.symoffset <= t.bucket[h % n] <= i && GnuHashOf(t.names[t.bucket[h % n]]) % n == h % n
      && t.chain[i - t.symoffset] / 2 == h / 2
      && (t.chain[i - t.symoffset] % 2 == 0 <==> i + 1 < |t.names| && GnuHashOf(t.names[i + 1]) % n == h % n)
  {
    assert Hashed(t, i) && BloomHolds(t, i) && ChainHolds(t, i);
    assert BucketHolds(t, BucketOf(t, i));
  }

  /** The test of the bloom filter, as the code does it. */
  predicate BloomPasses(t: GnuTable, hash: nat)
    requires t.bits > 0 && |t.bloom| > 0
  {
    var mask := Or(Pow2(hash % t.bits), Pow2(hash / Pow2(t.bloomShift) % t.bits));
    And(BloomWord(t, hash), mask) == mask
  }

  /** The bloom filter lets every hashed symbol pass. */
  lemma BloomNeverRejects(t: GnuTable, i: nat)
    requires WellFormed(t) && Hashed(t, i)
    ensures BloomPasses(t, GnuHashOf(t.names[i]))
  {
    var hash := GnuHashOf(t.names[i]);
    assert BloomHolds(t, i);
    MaskTest(BloomWord(t, hash), hash % t.bits, hash / Pow2(t.bloomShift) % t.bits);
  }

  lemma LowestBitSet(a: nat, b: nat)
    ensures Or(a, 1) == Or(b, 1) <==> a / 2 == b / 2
  {
  }

  /** No hashed symbol below `end` has the name. */
  ghost predicate NoneBefore(t: GnuTable, symbol: Name, end: nat) {
    forall i :: t.symoffset <= i < end ==> !Named(t.names, i, symbol)
  }

  /** The lowest hashed symbol with the name. */
  method LookupDef(t: GnuTable, symbol: Name) returns (r: int, symidx: nat)
    requires WellFormed(t)
    ensures r == 0 || r == XH_ERRNO_NOTFND
    ensures r == 0 ==> Hashed(t, symidx) && t.names[symidx] == symbol && NoneBefore(t, symbol, symidx)
    ensures r != 0 ==> NoneBefore(t, symbol, |t.names|)
  {
    var hash := GnuHash(symbol);
    if !BloomPasses(t, hash) {
      NoneWhereBloomFails(t, symbol);
      return XH_ERRNO_NOTFND, 0;
    }
    var b := hash % |t.bucket|;
    var i := t.bucket[b];
    assert BucketHolds(t, b);
    NoneBeforeBucket(t, symbol);
    if i < t.symoffset {
      return XH_ERRNO_NOTFND, 0;
    }
    while true
      invariant Hashed(t, i) && BucketOf(t, i) == b && NoneBefore(t, symbol, i)
      decreases |t.names| - i
    {
      var symhash := t.chain[i - t.symoffset];
      if Or(hash, 1) == Or(symhash, 1) && symbol == t.names[i] {
        return 0, i;
      }
      NotThisOne(t, symbol, i);
      if symhash % 2 == 1 {
        NoneAfterRun(t, symbol, i);
        return XH_ERRNO_NOTFND, 0;
      }
      i := i + 1;
    }
  }

  /** A symbol of the run whose hash or name differs; the run goes on where its chain word is even. */
  lemma NotThisOne(t: GnuTable, symbol: Name, i: nat)
    requires WellFormed(t) && Hashed(t, i) && NoneBefore(t, symbol, i)
    requires Or(GnuHashOf(symbol), 1) == Or(t.chain[i - t.symoffset], 1) ==> symbol != t.names[i]
    ensures NoneBefore(t, symbol, i + 1)
    ensures t.chain[i - t.symoffset] % 2 == 0 ==> Hashed(t, i + 1) && BucketOf(t, i + 1) == BucketOf(t, i)
  {
    assert ChainHolds(t, i);
    LowestBitSet(GnuHashOf(symbol), t.chain[i - t.symoffset]);
  }

  lemma NoneWhereBloomFails(t: GnuTable, symbol: Name)
    requires WellFormed(t) && !BloomPasses(t, GnuHashOf(symbol))
    ensures NoneBefore(t, symbol, |t.names|)
  {
    forall i | t.symoffset <= i < |t.names|
      ensures !Named(t.names, i, symbol)
    {
      BloomNeverRejects(t, i);
    }
  }

  lemma NoneBeforeBucket(t: GnuTable, symbol: Name)
    requires WellFormed(t)
    ensures var i := t.bucket[GnuHashOf(symbol) % |t.bucket|];
      NoneBefore(t, symbol, if i < t.symoffset then |t.names| else i)
  {
    assert BucketHolds(t, GnuHashOf(symbol) % |t.bucket|);
    forall i: nat | Hashed(t, i) && t.names[i] == symbol
      ensures t.symoffset <= t.bucket[GnuHashOf(symbol) % |t.bucket|] <= i
    {
      assert BucketOf(t, i) == GnuHashOf(symbol) % |t.bucket|;
    }
  }

  /** Behind the end of a run come the symbols of higher buckets. */
  lemma NoneAfterRun(t: GnuTable, symbol: Name, i: nat)
    requires WellFormed(t) && Hashed(t, i) && BucketOf(t, i) == GnuHashOf(symbol) % |t.bucket|
    requires NoneBefore(t, symbol, i) && t.names[i] != symbol
    requires i + 1 == |t.names| || BucketOf(t, i + 1) != BucketOf(t, i)
    ensures NoneBefore(t, symbol, |t.names|)
  {
    forall j | i < j < |t.names|
      ensures !Named(t.names, j, symbol)
    {
      assert BucketOf(t, i) <= BucketOf(t, i + 1) <= BucketOf(t, j);
    }
  }

  /** The lowest symbol with the name among those that are not hashed. */
  method LookupUndef(t: GnuTable, symbol: Name) returns (r: int, symidx: nat)
    requires t.symoffset <= |t.names|
    ensures r == 0 || r == XH_ERRNO_NOTFND
    ensures r == 0 ==> symidx < t.symoffset && t.names[symidx] == symbol
    ensures forall j :: 0 <= j < (if r == 0 then symidx else t.symoffset) ==> t.names[j] != symbol
  {
    symidx := 0;
    while symidx < t.symoffset
      invariant symidx <= t.symoffset
      invariant forall j :: 0 <= j < symidx ==> t.names[j] != symbol
    {
      if t.names[symidx] == symbol {
        return 0, symidx;
      }
      symidx := symidx + 1;
    }
    r := XH_ERRNO_NOTFND;
  }

  /** The lowest index that a search through the hashed symbols finds, else the lowest among the others. */
  ghost predicate IsFirst(t: GnuTable, symbol: Name, i: nat) {
    && Named(t.names, i, symbol)
    && (if i < t.symoffset
        then NoneBefore(t, symbol, |t.names|) && forall j :: 0 <= j < i ==> !Named(t.names, j, symbol)
        else NoneBefore(t, symbol, i))
  }

  /** The lookup is a linear search: it succeeds exactly if some symbol has the name. */
  method GnuLookup(t: GnuTable, symbol: Name) returns (r: int, symidx: nat)
    requires WellFormed(t)
    ensures r == 0 || r == XH_ERRNO_NOTFND
    ensures r == 0 <==> exists i :: Named(t.names, i, symbol)
    ensures r == 0 ==> IsFirst(t, symbol, symidx)
  {
    r, symidx := LookupDef(t, symbol);
    if r == 0 {
      assert Named(t.names, symidx, symbol);
      return;
    }
    r, symidx := LookupUndef(t, symbol);
    assert r == 0 ==> Named(t.names, symidx, symbol);
  }
}
