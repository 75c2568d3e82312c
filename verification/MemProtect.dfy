/** The protection of a range of memory, from the lines of /proc/self/maps,
    and the pages that hold a word (xh_util.c). */
module MemProtect {
  import opened Arithmetic
  import opened Errno
  import opened Words

  /** A line that `sscanf` could read; the addresses from `start` up to `end` have these permissions. */
  datatype Line = Line(start: nat, end: nat, text: string, read: bool, write: bool, exec: bool, privately: bool)

  datatype Prot = Prot(read: bool, write: bool, exec: bool)

  /** The kernel lists the lines by address, and they do not overlap. */
  ghost predicate Ordered(lines: seq<Line>) {
    && (forall i :: 0 <= i < |lines| ==> lines[i].start < lines[i].end)
    && forall i, j :: 0 <= i < j < |lines| ==> lines[i].end <= lines[j].start
  }

  /** Line `i` is one that the scan looks at; `named` is the test of `strstr`, or true without a pathname. */
  ghost predicate Looked(lines: seq<Line>, named: string -> bool, i: nat) {
    i < |lines| && lines[i].privately && named(lines[i].text)
  }

  ghost predicate Holds(line: Line, a: int) {
    line.start <= a < line.end
  }

  /** Address `a` is in one of the first `k` lines that the scan looks at. */
  ghost predicate Covered(lines: seq<Line>, named: string -> bool, k: nat, a: int) {
    exists i: nat :: i < k && Looked(lines, named, i) && Holds(lines[i], a)
  }

  ghost predicate AllCovered(lines: seq<Line>, named: string -> bool, k: nat, lo: int, hi: int) {
    forall a :: lo <= a < hi ==> Covered(lines, named, k, a)
  }

  ghost predicate Overlaps(line: Line, lo: int, hi: int) {
    line.start < hi && lo < line.end
  }

  /** The permissions that all of the first `k` lines have that the scan looks at and that overlap the range. */
  ghost function Common(lines: seq<Line>, named: string -> bool, k: nat, lo: int, hi: int): Prot {
    Prot(forall i: nat :: i < k && Looked(lines, named, i) && Overlaps(lines[i], lo, hi) ==> lines[i].read,
         forall i: nat :: i < k && Looked(lines, named, i) && Overlaps(lines[i], lo, hi) ==> lines[i].write,
         forall i: nat :: i < k && Looked(lines, named, i) && Overlaps(lines[i], lo, hi) ==> lines[i].exec)
  }

  /** Where the scan has to get to: the end of the range, or behind its start if the sum wraps or the range is empty. */
  function Goal(addr: nat, len: nat, bits: nat): nat {
    var end := Wrap(addr + len, bits);
    if end <= addr then addr + 1 else end
  }

  /** The scan has read `k` lines and got from `lo` to `at`. */
  ghost predicate Scanned(lines: seq<Line>, named: string -> bool, k: nat, lo: nat, at: nat, load0: bool, prot: Prot) {
    && k <= |lines| && lo <= at && (load0 <==> lo == at)
    && AllCovered(lines, named, k, lo, at) && !Covered(lines, named, k, at)
    && (!load0 ==> prot == Common(lines, named, k, lo, at))
  }

  /** The permissions after one more line that belongs to the range. */
  function Met(load0: bool, prot: Prot, line: Line): Prot {
    if load0 then Prot(line.read, line.write, line.exec)
    else Prot(prot.read && line.read, prot.write && line.write, prot.exec && line.exec)
  }

  /** Succeeds exactly if the range is covered without gaps, and answers the permissions common to all of it. */
  method GetMemProtect(addr: nat, len: nat, bits: nat, mapsOpen: bool, lines: seq<Line>, named: string -> bool)
    returns (r: int, prot: Prot)
    requires Ordered(lines)
    ensures !mapsOpen ==> r == XH_ERRNO_BADMAPS
    ensures mapsOpen ==>
      r == if AllCovered(lines, named, |lines|, addr, Goal(addr, len, bits)) then 0 else XH_ERRNO_SEGVERR
    ensures r == 0 ==> prot == Common(lines, named, |lines|, addr, Goal(addr, len, bits))
  {
    var startAddr: nat, endAddr: nat := addr, Wrap(addr + len, bits);
    var load0 := true;
    prot := Prot(false, false, false);
    if !mapsOpen { return XH_ERRNO_BADMAPS, prot; }
    ghost var goal := Goal(addr, len, bits);
    var k := 0;
    while k < |lines|
      invariant Scanned(lines, named, k, addr, startAddr, load0, prot) && startAddr < goal
    {
      var line := lines[k];
      if named(line.text) && line.privately && line.start <= startAddr < line.end {
        ghost var was := prot;
        if load0 {
          prot := Prot(line.read, line.write, line.exec);
        } else {
          prot := Prot(prot.read && line.read, prot.write && line.write, prot.exec && line.exec);
        }
        if endAddr <= line.end {
          ScanDone(lines, named, k, addr, startAddr, load0, was, goal);
          return 0, prot;
        }
        ScanInto(lines, named, k, addr, startAddr, load0, was);
        load0 := false;
        startAddr := line.end;
      } else {
        ScanPast(lines, named, k, addr, startAddr, load0, prot);
      }
      k := k + 1;
    }
    assert !Covered(lines, named, |lines|, startAddr);
    r := XH_ERRNO_SEGVERR;
  }

  lemma ScanPast(lines: seq<Line>, named: string -> bool, k: nat, lo: nat, at: nat, load0: bool, prot: Prot)
    requires Ordered(lines) && Scanned(lines, named, k, lo, at, load0, prot)
    requires k < |lines| && !(Looked(lines, named, k) && Holds(lines[k], at))
    ensures Scanned(lines, named, k + 1, lo, at, load0, prot)
  {
    CoveredStays(lines, named, k, k + 1, lo, at);
    if !load0 {
      NotOverlapped(lines, named, k, lo, at);
    }
  }

  lemma ScanInto(lines: seq<Line>, named: string -> bool, k: nat, lo: nat, at: nat, load0: bool, prot: Prot)
    requires Ordered(lines) && Scanned(lines, named, k, lo, at, load0, prot)
    requires Looked(lines, named, k) && Holds(lines[k], at)
    ensures Scanned(lines, named, k + 1, lo, lines[k].end, false, Met(load0, prot, lines[k]))
  {
    CoveredFurther(lines, named, k, lo, at, lines[k].end, k + 1);
    CommonFurther(lines, named, k, lo, at, lines[k].end);
  }

  lemma ScanDone(lines: seq<Line>, named: string -> bool, k: nat, lo: nat, at: nat, load0: bool, prot: Prot, hi: nat)
    requires Ordered(lines) && Scanned(lines, named, k, lo, at, load0, prot)
    requires Looked(lines, named, k) && Holds(lines[k], at) && at < hi <= lines[k].end
    ensures AllCovered(lines, named, |lines|, lo, hi)
    ensures Met(load0, prot, lines[k]) == Common(lines, named, |lines|, lo, hi)
  {
    CoveredFurther(lines, named, k, lo, at, hi, |lines|);
    CommonFurther(lines, named, k, lo, at, hi);
  }

  lemma CoveredStays(lines: seq<Line>, named: string -> bool, k: nat, n: nat, lo: nat, at: nat)
    requires AllCovered(lines, named, k, lo, at) && k <= n
    ensures AllCovered(lines, named, n, lo, at)
  {
    forall a | lo <= a < at
      ensures Covered(lines, named, n, a)
    {
      assert Covered(lines, named, k, a);
    }
  }

  lemma CoveredFurther(lines: seq<Line>, named: string -> bool, k: nat, lo: nat, at: nat, hi: nat, n: nat)
    requires Looked(lines, named, k) && Holds(lines[k], at) && lo <= at < hi <= lines[k].end && k < n
    requires AllCovered(lines, named, k, lo, at)
    ensures AllCovered(lines, named, n, lo, hi)
  {
    forall a | lo <= a < hi
      ensures Covered(lines, named, n, a)
    {
      if a < at {
        assert Covered(lines, named, k, a);
      } else {
        assert Holds(lines[k], a);
      }
    }
  }

  /** Where the range is covered by earlier lines, a later one does not overlap it. */
  lemma NotOverlapped(lines: seq<Line>, named: string -> bool, k: nat, lo: nat, at: nat)
    requires Ordered(lines) && k < |lines| && lo < at && AllCovered(lines, named, k, lo, at)
    ensures forall j :: k <= j < |lines| ==> !Overlaps(lines[j], lo, at)
  {
    assert Covered(lines, named, k, at - 1);
    var i: nat :| i < k && Looked(lines, named, i) && Holds(lines[i], at - 1);
  }

  /** What is common to a range and its continuation. */
  lemma CommonFurther(lines: seq<Line>, named: string -> bool, k: nat, lo: nat, at: nat, hi: nat)
    requires Ordered(lines) && Looked(lines, named, k) && Holds(lines[k], at) && lo <= at < hi <= lines[k].end
    requires AllCovered(lines, named, k, lo, at)
    ensures var was, line, now := Common(lines, named, k, lo, at), lines[k], Common(lines, named, |lines|, lo, hi);
      now == if lo == at then Prot(line.read, line.write, line.exec)
             else Prot(was.read && line.read, was.write && line.write, was.exec && line.exec)
    ensures Common(lines, named, k + 1, lo, hi) == Common(lines, named, |lines|, lo, hi)
  {
    if lo < at {
      NotOverlapped(lines, named, k, lo, at);
    }
    assert Overlaps(lines[k], lo, hi);
    forall i: nat | i < |lines| && i != k
      ensures Overlaps(lines[i], lo, hi) <==> i < k && lo < at && Overlaps(lines[i], lo, at)
    {
    }
  }

  /** Line `i` is a private one with the pathname, and holds byte `a`. */
  ghost predicate Backs(lines: seq<Line>, named: string -> bool, i: int, a: int) {
    0 <= i < |lines| && lines[i].privately && named(lines[i].text) && lines[i].start <= a < lines[i].end
  }

  ghost predicate Backed(lines: seq<Line>, named: string -> bool, a: int) {
    exists i :: Backs(lines, named, i, a)
  }

  /** Byte for byte: a range is covered exactly if each of its bytes is in such a line. */
  lemma CoveredMeans(lines: seq<Line>, named: string -> bool, lo: int, hi: int)
    ensures AllCovered(lines, named, |lines|, lo, hi) <==> forall a :: lo <= a < hi ==> Backed(lines, named, a)
  {
    forall a
      ensures Covered(lines, named, |lines|, a) <==> Backed(lines, named, a)
    {
      if i: nat :| i < |lines| && Looked(lines, named, i) && Holds(lines[i], a) {
        assert Backs(lines, named, i, a);
      }
      if i :| Backs(lines, named, i, a) {
        assert Looked(lines, named, i) && Holds(lines[i], a);
      }
    }
  }

  /** And a permission is common to a range exactly if each of its bytes has it. */
  lemma CommonMeans(lines: seq<Line>, named: string -> bool, lo: int, hi: int)
    requires Ordered(lines) && lo < hi
    ensures var prot := Common(lines, named, |lines|, lo, hi);
      && (prot.read <==> forall a, i :: lo <= a < hi && Backs(lines, named, i, a) ==> lines[i].read)
      && (prot.write <==> forall a, i :: lo <= a < hi && Backs(lines, named, i, a) ==> lines[i].write)
      && (prot.exec <==> forall a, i :: lo <= a < hi && Backs(lines, named, i, a) ==> lines[i].exec)
  {
    forall i: nat | i < |lines| && Looked(lines, named, i) && Overlaps(lines[i], lo, hi)
      ensures exists a :: lo <= a < hi && Backs(lines, named, i, a)
    {
      assert Backs(lines, named, i, Max(lo, lines[i].start));
    }
    assert forall a, i :: lo <= a < hi && Backs(lines, named, i, a) ==>
      Looked(lines, named, i) && Overlaps(lines[i], lo, hi);
  }

  lemma GoalIsEndIff(addr: nat, len: nat, bits: nat)
    requires addr < Pow2(bits) && len < Pow2(bits)
    ensures Goal(addr, len, bits) == addr + len <==> len == 1 || (len > 0 && addr + len < Pow2(bits))
    ensures Goal(addr, len, bits) != addr + len ==> Goal(addr, len, bits) == addr + 1
  {
    var m := Pow2(bits);
    if addr + len < m {
      ModUnique(addr + len, 0, addr + len, m);
    } else {
      ModUnique(addr + len, 1, addr + len - m, m);
    }
  }

  /** On these lines the answer tells whether the range is covered. */
  ghost predicate AnswersRightly(lines: seq<Line>, named: string -> bool, addr: nat, len: nat, bits: nat) {
    AllCovered(lines, named, |lines|, addr, Goal(addr, len, bits))
    <==> AllCovered(lines, named, |lines|, addr, addr + len)
  }

  /** The answer is right on all lines if and only if the range has bytes and does not reach the end of memory, or is
      one byte. */
  lemma RightAnswersIff(addr: nat, len: nat, bits: nat)
    requires addr < Pow2(bits) && len < Pow2(bits)
    ensures (forall lines, named :: Ordered(lines) ==> AnswersRightly(lines, named, addr, len, bits))
            <==> len == 1 || (len > 0 && addr + len < Pow2(bits))
  {
    GoalIsEndIff(addr, len, bits);
    if !(len == 1 || (len > 0 && addr + len < Pow2(bits))) {
      OneByteWillDo(if len == 0 then [] else [Line(addr, addr + 1, "", true, true, true, true)], addr, len, bits);
    }
  }

  /** Lines on which the answer is wrong: none for an empty range, and a single byte for one that wraps. */
  lemma OneByteWillDo(lines: seq<Line>, addr: nat, len: nat, bits: nat)
    requires addr < Pow2(bits) && len < Pow2(bits) && len != 1 && (len == 0 || addr + len >= Pow2(bits))
    requires lines == if len == 0 then [] else [Line(addr, addr + 1, "", true, true, true, true)]
    ensures Ordered(lines) && !AnswersRightly(lines, _ => true, addr, len, bits)
  {
    GoalIsEndIff(addr, len, bits);
    if len == 0 {
      assert !Covered(lines, _ => true, |lines|, addr);
    } else {
      assert Holds(lines[0], addr) && Looked(lines, _ => true, 0);
      assert !Covered(lines, _ => true, |lines|, addr + 1);
    }
  }

  /** A word of 32 bits up to the end of memory: its first byte alone makes the scan succeed. */
  lemma LastWordIsNotAskedFor(named: string -> bool)
    requires named("lib.so")
    ensures var lines := [Line(0xffff_f000, 0xffff_fffd, "lib.so", true, true, false, true)];
      && Ordered(lines) && AllCovered(lines, named, |lines|, 0xffff_fffc, Goal(0xffff_fffc, 4, 32))
      && !AllCovered(lines, named, |lines|, 0xffff_fffc, 0xffff_fffc + 4)
  {
    var lines := [Line(0xffff_f000, 0xffff_fffd, "lib.so", true, true, false, true)];
    Pow2Values();
    GoalIsEndIff(0xffff_fffc, 4, 32);
    assert Holds(lines[0], 0xffff_fffc) && Looked(lines, named, 0);
    assert !Covered(lines, named, |lines|, 0xffff_fffd);
  }

  // ----- pages

  const PAGE_SIZE := 4096

  /** The macros, in words of `bits` bits; a word takes `word` bytes. */
  function PageStart(addr: nat, bits: nat): nat
    requires Pow2(bits) >= PAGE_SIZE
  {
    And(addr, Pow2(bits) - PAGE_SIZE)
  }

  function PageEnd(addr: nat, word: nat, bits: nat): nat
    requires Pow2(bits) >= PAGE_SIZE && word > 0
  {
    Wrap(PageStart(Wrap(addr + word - 1, bits), bits) + PAGE_SIZE, bits)
  }

  function PageCover(addr: nat, word: nat, bits: nat): nat
    requires Pow2(bits) >= PAGE_SIZE && word > 0
  {
    Wrap(PageEnd(addr, word, bits) - PageStart(addr, bits), bits)
  }

  /** Masking rounds down to a page. */
  lemma PageStartRoundsDown(addr: nat, bits: nat)
    requires bits >= 12 && addr < Pow2(bits)
    ensures Pow2(bits) >= PAGE_SIZE && Pow2(bits) % PAGE_SIZE == 0
    ensures PageStart(addr, bits) == addr - addr % PAGE_SIZE
  {
    WholePages(bits);
    MaskClears(addr % 4096, addr / 4096, bits - 12);
  }

  lemma WholePages(bits: nat)
    requires bits >= 12
    ensures Pow2(bits) == Pow2(bits - 12) * 4096 && Pow2(bits) >= 4096 && Pow2(bits) % 4096 == 0
  {
    Pow2Sum(bits - 12, 12);
    Pow2Values();
  }

  lemma MaskClears(low: nat, page: nat, k: nat)
    requires low < 4096 && page < Pow2(k)
    ensures And(low + page * 4096, Pow2(k) * 4096 - 4096) == page * 4096
  {
    var n := Pow2(k);
    assert Pow2(12) == 4096 by {
      Pow2Values();
    }
    AndSplit(low, 0, 12, page, n - 1);
    AndOnes(page, k);
    assert (n - 1) * 4096 == n * 4096 - 4096;
  }

  predicate PageAligned(a: int) {
    a % PAGE_SIZE == 0
  }

  /** PAGE_COVER is the distance from the first page to the end of the last one, even at the very end of memory. */
  lemma {:induction false} CoverIs(addr: nat, word: nat, bits: nat)
    requires bits >= 16 && 0 < word <= PAGE_SIZE && addr + word <= Pow2(bits)
    ensures Pow2(bits) >= PAGE_SIZE && PageStart(addr, bits) == addr - addr % PAGE_SIZE
    ensures var last := addr + word - 1;
      PageStart(addr, bits) + PageCover(addr, word, bits) == last - last % PAGE_SIZE + PAGE_SIZE <= Pow2(bits)
  {
    var last := addr + word - 1;
    var start, end := addr - addr % PAGE_SIZE, last - last % PAGE_SIZE + PAGE_SIZE;
    PageStartRoundsDown(addr, bits);
    PageStartRoundsDown(last, bits);
    PagesBelow(addr, last, bits);
    ModUnique(last, 0, last, Pow2(bits));
    CoverBetween(addr, word, bits);
  }

  lemma {:induction false} CoverBetween(addr: nat, word: nat, bits: nat)
    requires word > 0 && Pow2(bits) >= PAGE_SIZE && Wrap(addr + word - 1, bits) == addr + word - 1
    requires PageStart(addr, bits) < PageStart(addr + word - 1, bits) + PAGE_SIZE <= Pow2(bits)
    requires PageStart(addr + word - 1, bits) + PAGE_SIZE - PageStart(addr, bits) < Pow2(bits)
    ensures PageCover(addr, word, bits) == PageStart(addr + word - 1, bits) + PAGE_SIZE - PageStart(addr, bits)
  {
    Distances(PageStart(addr, bits), PageStart(addr + word - 1, bits) + PAGE_SIZE, bits);
  }

  lemma PagesBelow(addr: nat, last: nat, bits: nat)
    requires bits >= 16 && Pow2(bits) % PAGE_SIZE == 0 && addr <= last < Pow2(bits) && last < addr + PAGE_SIZE
    ensures var start, end := addr - addr % PAGE_SIZE, last - last % PAGE_SIZE + PAGE_SIZE;
      start < end <= Pow2(bits) && end - start < Pow2(bits)
  {
    Pow2Values();
    Pow2Monotonic(16, bits);
    AlignedBounds(Pow2(bits), last);
  }

  lemma Distances(start: nat, end: nat, bits: nat)
    requires start < end <= Pow2(bits) && end - start < Pow2(bits)
    ensures Wrap(Wrap(end, bits) - start, bits) == end - start
  {
    var m := Pow2(bits);
    if end == m {
      ModUnique(end, 1, 0, m);
      ModUnique(0 - start, -1, m - start, m);
    } else {
      ModUnique(end, 0, end, m);
      ModUnique(end - start, 0, end - start, m);
    }
  }

  lemma SmallestAround(addr: int, last: int, start: int, end: int)
    requires start == addr - addr % PAGE_SIZE && end == last - last % PAGE_SIZE + PAGE_SIZE
    ensures PageAligned(start) && PageAligned(end) && start <= addr && last < end
    ensures forall lo, hi :: PageAligned(lo) && PageAligned(hi) && lo <= addr && last < hi ==> lo <= start && end <= hi
  {
    forall lo, hi | PageAligned(lo) && PageAligned(hi) && lo <= addr && last < hi
      ensures lo <= start && end <= hi
    {
      AlignedBounds(lo, addr);
      AlignedBounds(hi, last);
    }
  }

  lemma AlignedBounds(page: int, a: int)
    requires PageAligned(page)
    ensures page <= a ==> page <= a - a % PAGE_SIZE
    ensures page > a ==> page >= a - a % PAGE_SIZE + PAGE_SIZE
  {
  }

  /** mprotect gets the smallest range of whole pages that holds the word. */
  lemma {:induction false} SmallestPages(addr: nat, word: nat, bits: nat)
    requires bits >= 16 && 0 < word <= PAGE_SIZE && addr + word <= Pow2(bits)
    ensures Pow2(bits) >= PAGE_SIZE
    ensures var start, cover := PageStart(addr, bits), PageCover(addr, word, bits);
      && PageAligned(start) && PageAligned(start + cover)
      && start <= addr && addr + word <= start + cover <= Pow2(bits)
      && forall lo, hi :: PageAligned(lo) && PageAligned(hi) && lo <= addr && addr + word - 1 < hi
                          ==> lo <= start && start + cover <= hi
  {
    CoverIs(addr, word, bits);
    SmallestAround(addr, addr + word - 1, PageStart(addr, bits), PageStart(addr, bits) + PageCover(addr, word, bits));
  }

  /** An aligned word lies in one page. */
  lemma AlignedWordInOnePage(addr: nat, bits: nat)
    requires bits in {32, 64} && addr % (bits / 8) == 0 && addr + bits / 8 <= Pow2(bits)
    ensures Pow2(bits) >= PAGE_SIZE && PageCover(addr, bits / 8, bits) == PAGE_SIZE
  {
    CoverIs(addr, bits / 8, bits);
    SamePage(addr, bits / 8);
  }

  lemma SamePage(addr: nat, word: nat)
    requires word in {4, 8} && addr % word == 0
    ensures var last := addr + word - 1; last - last % PAGE_SIZE == addr - addr % PAGE_SIZE
  {
    var q, rest := addr / PAGE_SIZE, addr % PAGE_SIZE;
    var words := if word == 4 then 1024 else 512;
    ModAddMultiple(rest, words * q, word);
    assert rest + word <= PAGE_SIZE by {
      assert rest == word * (rest / word);
    }
    ModUnique(addr + word - 1, q, rest + word - 1, PAGE_SIZE);
  }

  /** Lines of whole pages, which are what the kernel lists, hold an aligned word or none of its bytes. So for them the
      answer about a word is right even at the very end of memory. */
  lemma WholePagesAnswerRightly(lines: seq<Line>, named: string -> bool, addr: nat, bits: nat)
    requires Ordered(lines) && forall i :: 0 <= i < |lines| ==> PageAligned(lines[i].start) && PageAligned(lines[i].end)
    requires bits in {32, 64} && addr % (bits / 8) == 0 && addr + bits / 8 <= Pow2(bits)
    ensures AnswersRightly(lines, named, addr, bits / 8, bits)
  {
    var len := bits / 8;
    LongerThanAWord(bits);
    GoalIsEndIff(addr, len, bits);
    if Covered(lines, named, |lines|, addr) {
      var i: nat :| i < |lines| && Looked(lines, named, i) && Holds(lines[i], addr);
      SamePage(addr, len);
      AlignedBounds(lines[i].end, addr);
      AlignedBounds(lines[i].end, addr + len - 1);
      forall a | addr <= a < addr + len
        ensures Covered(lines, named, |lines|, a)
      {
        assert Holds(lines[i], a);
      }
    } else {
      assert !AllCovered(lines, named, |lines|, addr, addr + len);
    }
  }

  lemma LongerThanAWord(bits: nat)
    requires bits in {32, 64}
    ensures bits / 8 < Pow2(bits)
  {
    Pow2Values();
    Pow2Monotonic(32, bits);
  }
}
