/** The refresh engine of xh_core.c, run by one caller at a time.

    The index of loaded libraries is the red-black tree of module RbTree. One refresh moves the
    entries that are still mapped into a second tree, creates the missing ones, hooks what is new
    or has moved, frees what is left behind and keeps the second tree. */
module Core {
  import opened Calls
  import opened Errno
  import opened MapLines
  import opened RbTree
  import opened Registry
  import opened Wrappers

  /** A valid tree, read as the finite map `index` from pathnames to its nodes. */
  ghost predicate Table(tree: Tree, index: map<string, Node>)
    reads tree, tree.nodes`left, tree.nodes`right, tree.nodes`parent, tree.nodes`color
    reads tree.nodes`pos, tree.nodes`lo, tree.nodes`hi, tree.nodes`bh
  {
    && tree.Valid()
    && (forall p {:trigger index[p]} :: p in index ==> index[p] in tree.nodes && index[p].pathname == p)
    && (forall n {:trigger n in tree.nodes} :: n in tree.nodes ==> n.pathname in index && index[n.pathname] == n)
  }

  /** RB_REMOVE, seen as a map operation. */
  method TakeOut(tree: Tree, mi: Node, ghost index: map<string, Node>) returns (ghost rest: map<string, Node>)
    requires Table(tree, index) && mi in tree.nodes
    modifies tree, tree.nodes`left, tree.nodes`right, tree.nodes`parent, tree.nodes`color
    modifies tree.nodes`pos, tree.nodes`lo, tree.nodes`hi, tree.nodes`bh
    ensures rest == index - {mi.pathname} && Table(tree, rest)
    ensures tree.nodes == old(tree.nodes) - {mi}
  {
    var removed := tree.Remove(mi);
    rest := index - {mi.pathname};
  }

  /** RB_INSERT, seen as a map operation. */
  method PutIn(tree: Tree, mi: Node, ghost index: map<string, Node>)
    returns (existing: Node?, ghost more: map<string, Node>)
    requires Table(tree, index) && mi !in tree.nodes
    modifies tree, tree.nodes`left, tree.nodes`right, tree.nodes`parent, tree.nodes`color
    modifies tree.nodes`pos, tree.nodes`lo, tree.nodes`hi, tree.nodes`bh
    modifies mi`left, mi`right, mi`parent, mi`color, mi`pos, mi`lo, mi`hi, mi`bh
    ensures Table(tree, more)
    ensures existing == if mi.pathname in index then index[mi.pathname] else null
    ensures more == if mi.pathname in index then index else index[mi.pathname := mi]
    ensures tree.nodes == if mi.pathname in index then old(tree.nodes) else old(tree.nodes) + {mi}
  {
    existing := tree.Insert(mi);
    if existing == null {
      assert mi.pathname !in index by {
        if mi.pathname in index {
          tree.SameNameSameNode(mi, index[mi.pathname]);
        }
      }
      more := index[mi.pathname := mi];
    } else {
      more := index;
    }
  }

  /** An entry changes trees. The new one never has an entry of that name, so nothing is ever answered. */
  method Move(source: Tree, target: Tree, mi: Node, ghost gone: map<string, Node>, ghost kept: map<string, Node>)
    returns (existing: Node?, ghost gone': map<string, Node>, ghost kept': map<string, Node>)
    requires source != target && source.nodes !! target.nodes && mi in source.nodes
    requires Table(source, gone) && Table(target, kept) && mi.pathname !in kept
    modifies source, source.nodes`left, source.nodes`right, source.nodes`parent, source.nodes`color
    modifies source.nodes`pos, source.nodes`lo, source.nodes`hi, source.nodes`bh
    modifies target, target.nodes`left, target.nodes`right, target.nodes`parent, target.nodes`color
    modifies target.nodes`pos, target.nodes`lo, target.nodes`hi, target.nodes`bh
    ensures existing == null
    ensures Table(source, gone') && Table(target, kept')
    ensures gone' == gone - {mi.pathname} && kept' == kept[mi.pathname := mi]
    ensures source.nodes == old(source.nodes) - {mi} && target.nodes == old(target.nodes) + {mi}
  {
    gone' := TakeOut(source, mi, gone);
    existing, kept' := PutIn(target, mi, kept);
  }

  /** The entries of a table have the base addresses `bases`. */
  ghost predicate Located(index: map<string, Node>, bases: map<string, nat>)
    reads index.Values`baseAddr
  {
    index.Keys == bases.Keys && forall p {:trigger index[p]} :: p in index ==> index[p].baseAddr == bases[p]
  }

  /** The bookkeeping of one refresh: what is left of the old table, the new table, and the entries
      allocated and freed so far. */
  datatype Progress = Progress(
    gone: map<string, Node>, kept: map<string, Node>, created: set<Node>, freed: seq<Node>)
  {
    /** Every entry that there was `before`, or that was created since, is in one of the tables or was freed, once. */
    ghost predicate Accounts(before: map<string, Node>) {
      && (forall p {:trigger gone[p]} :: p in gone ==> gone[p].pathname == p)
      && (forall p {:trigger kept[p]} :: p in kept ==> kept[p].pathname == p)
      && gone == before - kept.Keys
      && multiset(freed) + multiset(gone.Values) + multiset(kept.Values)
         == multiset(before.Values) + multiset(created)
    }

    ghost function Keep(mi: Node): Progress {
      this.(gone := gone - {mi.pathname}, kept := kept[mi.pathname := mi])
    }

    ghost function Add(mi: Node): Progress {
      this.(kept := kept[mi.pathname := mi], created := created + {mi})
    }

    ghost function Discard(mi: Node): Progress {
      this.(created := created + {mi}, freed := freed + [mi])
    }

    /** A new entry is kept if it is the first one for its path, and freed again otherwise. */
    ghost function Made(mi: Node, first: bool): Progress {
      if first then Add(mi) else Discard(mi)
    }

    lemma MadeAccounts(before: map<string, Node>, mi: Node, first: bool)
      requires Accounts(before) && mi !in created && (first ==> mi.pathname !in kept && mi.pathname !in gone)
      ensures Made(mi, first).Accounts(before)
    {
      if first {
        AddAccounts(before, mi);
      } else {
        DiscardAccounts(before, mi);
      }
    }

    lemma KeepAccounts(before: map<string, Node>, mi: Node)
      requires Accounts(before) && mi.pathname in gone && gone[mi.pathname] == mi && mi.pathname !in kept
      ensures Keep(mi).Accounts(before)
    {
      var next := Keep(mi);
      AddedValue(kept, mi);
      AddedValue(next.gone, mi);
      assert next.gone[mi.pathname := mi] == gone;
    }

    lemma AddAccounts(before: map<string, Node>, mi: Node)
      requires Accounts(before) && mi !in created && mi.pathname !in kept && mi.pathname !in gone
      ensures Add(mi).Accounts(before)
    {
      AddedValue(kept, mi);
      AddedElement(created, mi);
      Carry(multiset(freed), multiset(gone.Values), multiset(kept.Values),
            multiset(before.Values), multiset(created), multiset{mi});
      assert gone == before - kept.Keys - {mi.pathname};
    }

    lemma DiscardAccounts(before: map<string, Node>, mi: Node)
      requires Accounts(before) && mi !in created
      ensures Discard(mi).Accounts(before)
    {
      AddedElement(created, mi);
      Carry(multiset(freed), multiset(gone.Values), multiset(kept.Values),
            multiset(before.Values), multiset(created), multiset{mi});
      assert multiset(freed + [mi]) == multiset(freed) + multiset{mi};
    }
  }

  lemma Carry(f: multiset<Node>, g: multiset<Node>, k: multiset<Node>, b: multiset<Node>, c: multiset<Node>,
              x: multiset<Node>)
    requires f + g + k == b + c
    ensures f + g + (k + x) == b + (c + x) && (f + x) + g + k == b + (c + x)
  {
    assert f + g + (k + x) == (f + g + k) + x;
    assert (f + x) + g + k == (f + g + k) + x;
  }

  lemma LocatedRest(index: map<string, Node>, bases: map<string, nat>, path: string)
    requires Located(index, bases)
    ensures Located(index - {path}, bases - {path})
  {
  }

  lemma LocatedMore(index: map<string, Node>, bases: map<string, nat>, n: Node)
    requires Located(index, bases)
    ensures Located(index[n.pathname := n], bases[n.pathname := n.baseAddr])
  {
  }

  lemma TableValues(tree: Tree, index: map<string, Node>)
    requires Table(tree, index)
    ensures tree.nodes == index.Values
  {
    forall n | n in tree.nodes ensures n in index.Values {
      assert index[n.pathname] == n;
    }
  }

  lemma AddedElement(s: set<Node>, n: Node)
    requires n !in s
    ensures multiset(s + {n}) == multiset(s) + multiset{n}
  {
  }

  lemma AddedValue(m: map<string, Node>, n: Node)
    requires n.pathname !in m && forall p {:trigger m[p]} :: p in m ==> m[p].pathname == p
    ensures multiset(m[n.pathname := n].Values) == multiset(m.Values) + multiset{n}
  {
    var m' := m[n.pathname := n];
    assert n !in m.Values;
    assert m'.Values == m.Values + {n} by {
      forall v | v in m.Values ensures v in m'.Values {
        var p :| p in m && m[p] == v;
        assert m'[p] == v;
      }
      assert m'[n.pathname] == n;
    }
  }

  /** The checks of a line before the path filter, and its pathname. */
  method PathOf(line: MapLine) returns (pathname: Option<string>)
    ensures pathname == if Candidate(line) then Some(Pathname(line)) else None
  {
    if !line.readable { return None; }
    if !line.privately { return None; }
    if line.offset != 0 { return None; }
    var path := line.text;
    if |path| == 0 { return None; }
    if path[|path| - 1] == '\n' {
      path := path[..|path| - 1];
    }
    if |path| == 0 { return None; }
    if path[0] == '[' { return None; }
    pathname := Some(path);
  }

  /** All checks of a line, and its pathname if it passes them. */
  method PathToTake(line: MapLine, hooks: seq<HookInfo>, ignores: seq<IgnoreInfo>) returns (pathname: Option<string>)
    ensures pathname == if TakenUp(line, hooks, ignores) then Some(Pathname(line)) else None
  {
    pathname := PathOf(line);
    if pathname == None { return; }
    var accepted := Filter(hooks, ignores, pathname.value);
    if !accepted { return None; }
    if !line.elfOk { return None; }
  }

  /** The path that a line announces, if there is one, is its pathname. */
  lemma AnnouncedByOne(line: MapLine, hooks: seq<HookInfo>, ignores: seq<IgnoreInfo>)
    ensures forall p :: Announces(line, hooks, ignores, p) <==> TakenUp(line, hooks, ignores) && Pathname(line) == p
  {
    forall p: string
      ensures Announces(line, hooks, ignores, p) <==> TakenUp(line, hooks, ignores) && Pathname(line) == p
    {
      TakenUpMeans(line, hooks, ignores, p);
    }
  }

  /** What is in the index after a refresh, and where. */
  lemma IndexMeans(entries: map<string, Node>, lines: seq<MapLine>, hooks: seq<HookInfo>, ignores: seq<IgnoreInfo>)
    requires Located(entries, Refreshed(lines, hooks, ignores))
    ensures forall p :: p in entries <==> exists n :: FirstAnnounced(lines, hooks, ignores, p, n)
    ensures forall p, n :: FirstAnnounced(lines, hooks, ignores, p, n) ==>
      p in entries && entries[p].baseAddr == lines[n].base
  {
    forall p: string
      ensures p in entries <==> exists n :: FirstAnnounced(lines, hooks, ignores, p, n)
      ensures forall n :: FirstAnnounced(lines, hooks, ignores, p, n) ==>
        p in entries && entries[p].baseAddr == lines[n].base
    {
      RefreshedMeans(lines, hooks, ignores, p);
    }
  }

  class Engine {
    var mapInfo: Tree
    var hooks: seq<HookInfo>
    var ignores: seq<IgnoreInfo>
    var inited: bool
    var initOk: bool
    ghost var index: map<string, Node>  // mapInfo as a map
    ghost var runs: seq<HookRun>        // every call of xh_core_hook since the last clear

    constructor ()
      ensures Valid() && fresh(mapInfo) && mapInfo.nodes == {} && State() == NEW_SESSION
    {
      hooks, ignores, inited, initOk := [], [], false, false;
      index, runs := map[], [];
      mapInfo := new Tree();
    }

    /** The last run for the entry `n` hooked it where it is now, with the lists as they are now. */
    ghost predicate HookedAsIs(n: Node)
      reads `hooks, `ignores, `runs, n`baseAddr
    {
      LastRun(runs, n.pathname) == Some(HookRun(n.pathname, n.baseAddr, hooks, ignores))
    }

    ghost predicate Valid()
      reads this, mapInfo, mapInfo.nodes
    {
      && Table(mapInfo, index)
      && (forall p {:trigger index[p]} :: p in index ==> HookedAsIs(index[p]))
      && (!inited ==> mapInfo.nodes == {} && !initOk)
    }

    /** `xh_core_hook`: runs the hooking loop and leaves a record of having done so; `calls` are the hooks placed. */
    method Hook(mi: Node) returns (calls: seq<HookInfo>)
      modifies this`runs
      ensures calls == Selected(hooks, ignores, mi.pathname)
      ensures runs == old(runs) + [HookRun(mi.pathname, mi.baseAddr, hooks, ignores)]
    {
      calls := HookLoop(hooks, ignores, mi.pathname);
      runs := runs + [HookRun(mi.pathname, mi.baseAddr, hooks, ignores)];
    }

    /** Hooks `mi`, which has just changed tables, again if its base changed. */
    method Rehook(mi: Node, base: nat, ghost gone: map<string, Node>, ghost left: map<string, nat>,
                  ghost kept: map<string, Node>, ghost done: map<string, nat>)
      requires Located(gone, left) && mi !in gone.Values && Located(kept, done) && mi !in kept.Values
      modifies this`runs, mi`baseAddr
      ensures mi.baseAddr == base
      ensures Located(gone, left) && Located(kept[mi.pathname := mi], done[mi.pathname := base])
      ensures runs == old(runs)
                      + (if old(mi.baseAddr) != base then [HookRun(mi.pathname, base, hooks, ignores)] else [])
    {
      if mi.baseAddr != base {
        mi.baseAddr := base;
        var calls := Hook(mi);
      }
      LocatedMore(kept, done, mi);
    }

    /** The entry exists already: move it into the new tree, and hook it again if its base changed. */
    method Keep(refreshed: Tree, mi: Node, base: nat, ghost gone: map<string, Node>, ghost kept: map<string, Node>,
                ghost left: map<string, nat>, ghost done: map<string, nat>)
      returns (ghost gone': map<string, Node>, ghost kept': map<string, Node>)
      requires mapInfo != refreshed && mapInfo.nodes !! refreshed.nodes && gone.Keys !! kept.Keys
      requires Table(mapInfo, gone) && Table(refreshed, kept) && mi in mapInfo.nodes
      requires Located(gone, left) && Located(kept, done)
      modifies this`runs, mapInfo, mapInfo.nodes, refreshed, refreshed.nodes
      ensures Table(mapInfo, gone') && Table(refreshed, kept')
      ensures gone' == gone - {mi.pathname} && kept' == kept[mi.pathname := mi]
      ensures mapInfo.nodes == old(mapInfo.nodes) - {mi} && refreshed.nodes == old(refreshed.nodes) + {mi}
      ensures Located(gone', left - {mi.pathname}) && Located(kept', done[mi.pathname := base])
      ensures mi.pathname in left
      ensures runs == old(runs)
                      + (if left[mi.pathname] != base then [HookRun(mi.pathname, base, hooks, ignores)] else [])
    {
      var existing;
      LocatedRest(gone, left, mi.pathname);
      existing, gone', kept' := Move(mapInfo, refreshed, mi, gone, kept);
      if existing != null {
        assert false;   // "repeated when update" cannot happen
      }
      Rehook(mi, base, gone', left - {mi.pathname}, kept, done);
    }

    /** The entry does not exist: create it, unless an earlier line for the path made one already. */
    method Create(refreshed: Tree, path: string, base: nat, ghost kept: map<string, Node>, ghost done: map<string, nat>)
      returns (mi: Node, existing: Node?, ghost kept': map<string, Node>)
      requires Table(refreshed, kept) && Located(kept, done)
      modifies this`runs, refreshed, refreshed.nodes`left, refreshed.nodes`right, refreshed.nodes`parent
      modifies refreshed.nodes`color, refreshed.nodes`pos, refreshed.nodes`lo, refreshed.nodes`hi, refreshed.nodes`bh
      ensures fresh(mi) && mi.pathname == path
      ensures Table(refreshed, kept')
      ensures existing == null <==> path !in kept
      ensures kept' == if path in kept then kept else kept[path := mi]
      ensures refreshed.nodes == if path in kept then old(refreshed.nodes) else old(refreshed.nodes) + {mi}
      ensures Located(kept', if path in kept then done else done[path := base])
      ensures runs == old(runs) + (if path in kept then [] else [HookRun(path, base, hooks, ignores)])
    {
      mi := new Node(path, base);
      existing, kept' := PutIn(refreshed, mi, kept);
      if existing == null {
        var calls := Hook(mi);
      }
    }

    /** Where a refresh stands: the new table holds `done`, the old one what else there was before. */
    ghost predicate Refreshing(refreshed: Tree, bases: map<string, nat>, done: map<string, nat>, pr: Progress)
      reads `mapInfo, mapInfo, mapInfo.nodes, refreshed, refreshed.nodes
      reads pr.gone.Values`baseAddr, pr.kept.Values`baseAddr
    {
      && mapInfo != refreshed && mapInfo.nodes !! refreshed.nodes
      && Table(mapInfo, pr.gone) && Table(refreshed, pr.kept)
      && Located(pr.gone, bases - done.Keys) && Located(pr.kept, done)
    }

    /** A line for an entry that is still in the old table. */
    method TakeKnown(refreshed: Tree, mi: Node, base: nat, ghost before: map<string, Node>,
                     ghost bases: map<string, nat>,
                     ghost done: map<string, nat>, ghost pr: Progress)
      returns (ghost pr': Progress)
      requires Refreshing(refreshed, bases, done, pr) && pr.Accounts(before) && mi in mapInfo.nodes
      modifies this`runs, mapInfo, mapInfo.nodes, refreshed, refreshed.nodes
      ensures Refreshing(refreshed, bases, AddBase(done, mi.pathname, base), pr') && pr'.Accounts(before)
      ensures mi.pathname !in done
      ensures mapInfo.nodes <= old(mapInfo.nodes) && refreshed.nodes <= old(refreshed.nodes + mapInfo.nodes)
      ensures pr'.created == pr.created
      ensures runs == old(runs) + NewRun(done, bases, mi.pathname, base, hooks, ignores)
    {
      pr.KeepAccounts(before, mi);
      pr' := pr.Keep(mi);
      ghost var gone, kept := Keep(refreshed, mi, base, pr.gone, pr.kept, bases - done.Keys, done);
    }

    /** A line for a path that is not, or no longer, in the old table. */
    method TakeUnknown(refreshed: Tree, path: string, base: nat,
                       ghost bases: map<string, nat>, ghost done: map<string, nat>, ghost pr: Progress)
      returns (mi: Node, ghost pr': Progress)
      requires Refreshing(refreshed, bases, done, pr) && path !in pr.gone
      modifies this`runs, refreshed, refreshed.nodes`left, refreshed.nodes`right, refreshed.nodes`parent
      modifies refreshed.nodes`color, refreshed.nodes`pos, refreshed.nodes`lo, refreshed.nodes`hi, refreshed.nodes`bh
      ensures fresh(mi) && mi.pathname == path && pr' == pr.Made(mi, path !in done)
      ensures Refreshing(refreshed, bases, AddBase(done, path, base), pr')
      ensures refreshed.nodes <= old(refreshed.nodes) + {mi}
      ensures runs == old(runs) + NewRun(done, bases, path, base, hooks, ignores)
    {
      var existing;
      ghost var kept;
      assert bases - AddBase(done, path, base).Keys == bases - done.Keys;
      mi, existing, kept := Create(refreshed, path, base, pr.kept, done);
      pr' := pr.Made(mi, existing == null);
    }

    /** One line of /proc/self/maps that passed every check. */
    method TakeLine(refreshed: Tree, path: string, base: nat, ghost before: map<string, Node>,
                    ghost bases: map<string, nat>,
                    ghost done: map<string, nat>, ghost pr: Progress)
      returns (ghost pr': Progress)
      requires Refreshing(refreshed, bases, done, pr) && pr.Accounts(before)
      modifies this`runs, mapInfo, mapInfo.nodes, refreshed, refreshed.nodes
      ensures Refreshing(refreshed, bases, AddBase(done, path, base), pr') && pr'.Accounts(before)
      ensures mapInfo.nodes <= old(mapInfo.nodes)
      ensures refreshed.nodes <= old(refreshed.nodes + mapInfo.nodes) + pr'.created
      ensures pr.created <= pr'.created && fresh(pr'.created - pr.created)
      ensures runs == old(runs) + NewRun(done, bases, path, base, hooks, ignores)
    {
      var mi, _ := mapInfo.Find(path);
      if mi != null {
        pr' := TakeKnown(refreshed, mi, base, before, bases, done, pr);
      } else {
        mi, pr' := TakeUnknown(refreshed, path, base, bases, done, pr);
        pr.MadeAccounts(before, mi, path !in done);
      }
    }

    /** A line that passes its checks is taken up. */
    method CheckLine(refreshed: Tree, line: MapLine, ghost before: map<string, Node>, ghost bases: map<string, nat>,
                     ghost done: map<string, nat>, ghost pr: Progress)
      returns (ghost pr': Progress)
      requires Refreshing(refreshed, bases, done, pr) && pr.Accounts(before)
      modifies this`runs, mapInfo, mapInfo.nodes, refreshed, refreshed.nodes
      ensures Refreshing(refreshed, bases, Advance(done, line, hooks, ignores), pr') && pr'.Accounts(before)
      ensures mapInfo.nodes <= old(mapInfo.nodes)
      ensures refreshed.nodes <= old(refreshed.nodes + mapInfo.nodes) + pr'.created
      ensures pr.created <= pr'.created && fresh(pr'.created - pr.created)
      ensures runs == old(runs) + LineRun(done, bases, line, hooks, ignores)
      ensures !TakenUp(line, hooks, ignores) ==> pr' == pr
    {
      pr' := pr;
      var pathname := PathToTake(line, hooks, ignores);
      if pathname == None {
        return;
      }
      pr' := TakeLine(refreshed, pathname.value, line.base, before, bases, done, pr);
    }

    /** One line of /proc/self/maps. */
    method ReadLine(refreshed: Tree, line: MapLine, ghost before: map<string, Node>, ghost bases: map<string, nat>,
                    ghost done: map<string, nat>, ghost pr: Progress)
      returns (ghost pr': Progress)
      requires Refreshing(refreshed, bases, done, pr) && pr.Accounts(before)
      modifies this`runs, mapInfo, mapInfo.nodes, refreshed, refreshed.nodes
      ensures Refreshing(refreshed, bases, Advance(done, line, hooks, ignores), pr') && pr'.Accounts(before)
      ensures mapInfo.nodes <= old(mapInfo.nodes)
      ensures refreshed.nodes <= old(refreshed.nodes + mapInfo.nodes) + pr'.created
      ensures pr.created <= pr'.created && fresh(pr'.created - pr.created)
      ensures runs == old(runs) + LineRun(done, bases, line, hooks, ignores)
      ensures forall p :: Announces(line, hooks, ignores, p) ==>
        runs == old(runs) + (if p !in done && (p !in bases || bases[p] != line.base)
                             then [HookRun(p, line.base, hooks, ignores)] else [])
      ensures (forall p :: !Announces(line, hooks, ignores, p)) ==> runs == old(runs) && pr' == pr
    {
      pr' := CheckLine(refreshed, line, before, bases, done, pr);
      AnnouncedByOne(line, hooks, ignores);
      assert Announces(line, hooks, ignores, Pathname(line)) <==> TakenUp(line, hooks, ignores);
    }

    /** The line loop of a refresh. */
    method ReadLines(refreshed: Tree, lines: seq<MapLine>, ghost before: map<string, Node>,
                     ghost bases: map<string, nat>)
      returns (ghost pr: Progress)
      requires Refreshing(refreshed, bases, map[], Progress(before, map[], {}, []))
      requires Progress(before, map[], {}, []).Accounts(before) && refreshed.nodes == {}
      modifies this`runs, mapInfo, mapInfo.nodes, refreshed
      ensures Refreshing(refreshed, bases, Refreshed(lines, hooks, ignores), pr) && pr.Accounts(before)
      ensures mapInfo.nodes <= old(mapInfo.nodes) && refreshed.nodes <= old(mapInfo.nodes) + pr.created
      ensures fresh(pr.created)
      ensures runs == old(runs) + Runs(lines, hooks, ignores, bases)
    {
      pr := Progress(before, map[], {}, []);
      ghost var earlier, start := runs, mapInfo.nodes;
      var n := 0;
      while n < |lines|
        invariant 0 <= n <= |lines|
        invariant pr.Accounts(before)
        invariant Refreshing(refreshed, bases, Refreshed(lines[..n], hooks, ignores), pr)
        invariant mapInfo.nodes <= start && refreshed.nodes <= start + pr.created && fresh(pr.created)
        invariant runs == earlier + Runs(lines[..n], hooks, ignores, bases)
      {
        pr := NextLine(refreshed, lines, n, before, bases, pr, earlier, start);
        n := n + 1;
      }
      assert lines[..|lines|] == lines;
    }

    /** Line `n` of the loop, which began with the runs `earlier` and the entries `start`. */
    method NextLine(refreshed: Tree, lines: seq<MapLine>, n: nat, ghost before: map<string, Node>,
                    ghost bases: map<string, nat>, ghost pr: Progress, ghost earlier: seq<HookRun>,
                    ghost start: set<Node>)
      returns (ghost pr': Progress)
      requires n < |lines| && pr.Accounts(before)
      requires Refreshing(refreshed, bases, Refreshed(lines[..n], hooks, ignores), pr)
      requires mapInfo.nodes <= start && refreshed.nodes <= start + pr.created
      requires runs == earlier + Runs(lines[..n], hooks, ignores, bases)
      modifies this`runs, mapInfo, mapInfo.nodes, refreshed, refreshed.nodes
      ensures Refreshing(refreshed, bases, Refreshed(lines[..n + 1], hooks, ignores), pr') && pr'.Accounts(before)
      ensures mapInfo.nodes <= start && refreshed.nodes <= start + pr'.created
      ensures pr.created <= pr'.created && fresh(pr'.created - pr.created)
      ensures runs == earlier + Runs(lines[..n + 1], hooks, ignores, bases)
    {
      RunsOfOneMore(earlier, lines, n, bases);
      pr' := ReadLine(refreshed, lines[n], before, bases, Refreshed(lines[..n], hooks, ignores), pr);
    }

    lemma RunsOfOneMore(earlier: seq<HookRun>, lines: seq<MapLine>, n: nat, bases: map<string, nat>)
      requires n < |lines|
      ensures var done := Refreshed(lines[..n], hooks, ignores);
        && Refreshed(lines[..n + 1], hooks, ignores) == Advance(done, lines[n], hooks, ignores)
        && earlier + Runs(lines[..n + 1], hooks, ignores, bases)
           == earlier + Runs(lines[..n], hooks, ignores, bases) + LineRun(done, bases, lines[n], hooks, ignores)
    {
      OneMoreLine(lines, n, hooks, ignores, bases);
    }

    /** Entries that kept their base were hooked before, the others in this refresh. */
    lemma AllHooked(kept: map<string, Node>, lines: seq<MapLine>, earlier: seq<HookRun>, bases: map<string, nat>)
      requires runs == earlier + Runs(lines, hooks, ignores, bases)
      requires Located(kept, Refreshed(lines, hooks, ignores))
      requires forall p {:trigger kept[p]} :: p in kept ==> kept[p].pathname == p
      requires forall p :: p in bases ==> LastRun(earlier, p) == Some(HookRun(p, bases[p], hooks, ignores))
      ensures forall p :: p in kept ==> HookedAsIs(kept[p])
    {
      forall p | p in kept ensures HookedAsIs(kept[p]) {
        LastRunAfterRefresh(lines, hooks, ignores, bases, earlier, p);
      }
    }

    /** Frees what is left of the old tree and puts the new one in its place. */
    method Finish(refreshed: Tree, ghost before: map<string, Node>, ghost pr: Progress) returns (ghost freed: seq<Node>)
      requires mapInfo != refreshed && mapInfo.nodes !! refreshed.nodes && inited
      requires Table(mapInfo, pr.gone) && Table(refreshed, pr.kept) && pr.Accounts(before)
      requires forall p {:trigger pr.kept[p]} :: p in pr.kept ==> HookedAsIs(pr.kept[p])
      modifies this`mapInfo, this`index, mapInfo
      modifies mapInfo.nodes`left, mapInfo.nodes`right, mapInfo.nodes`parent, mapInfo.nodes`color
      modifies mapInfo.nodes`pos, mapInfo.nodes`lo, mapInfo.nodes`hi, mapInfo.nodes`bh
      ensures mapInfo == refreshed && index == pr.kept && Valid()
      ensures multiset(freed) + multiset(mapInfo.nodes) == multiset(before.Values) + multiset(pr.created)
    {
      TableValues(refreshed, pr.kept);
      var visited := DrainOld(refreshed, pr.gone, pr.kept);
      freed := pr.freed + visited;
      assert multiset(freed) == multiset(pr.freed) + multiset(pr.gone.Values);
      mapInfo, index := refreshed, pr.kept;
    }

    /** Empties the old tree, which leaves the new one alone. */
    method DrainOld(refreshed: Tree, ghost gone: map<string, Node>, ghost kept: map<string, Node>)
      returns (visited: seq<Node>)
      requires mapInfo != refreshed && mapInfo.nodes !! refreshed.nodes
      requires Table(mapInfo, gone) && Table(refreshed, kept)
      modifies mapInfo
      modifies mapInfo.nodes`left, mapInfo.nodes`right, mapInfo.nodes`parent, mapInfo.nodes`color
      modifies mapInfo.nodes`pos, mapInfo.nodes`lo, mapInfo.nodes`hi, mapInfo.nodes`bh
      ensures Table(refreshed, kept) && multiset(visited) == multiset(gone.Values)
    {
      TableValues(mapInfo, gone);
      mapInfo.OrderHoldsEachNodeOnce();
      visited := mapInfo.Drain();
    }

    /** Builds the new table from the lines of the map. */
    method Rebuild(lines: seq<MapLine>) returns (refreshed: Tree, ghost pr: Progress)
      requires Valid()
      modifies this`runs, mapInfo, mapInfo.nodes
      ensures mapInfo != refreshed && mapInfo.nodes !! refreshed.nodes
      ensures Table(mapInfo, pr.gone) && Table(refreshed, pr.kept) && pr.Accounts(index)
      ensures Located(pr.kept, Refreshed(lines, hooks, ignores))
      ensures runs == old(runs) + Runs(lines, hooks, ignores, old(Bases()))
      ensures forall p :: p in pr.kept ==> HookedAsIs(pr.kept[p])
      ensures mapInfo.nodes <= old(mapInfo.nodes) && refreshed.nodes <= old(mapInfo.nodes) + pr.created
      ensures fresh(refreshed) && fresh(pr.created)
    {
      ghost var bases := Bases();
      refreshed := new Tree();
      pr := ReadLines(refreshed, lines, index, bases);
      AllHooked(pr.kept, lines, old(runs), bases);
    }

    /** One refresh; `maps` is None when /proc/self/maps cannot be opened. */
    method RefreshImpl(maps: Option<seq<MapLine>>) returns (ghost created: set<Node>, ghost freed: seq<Node>)
      requires Valid() && inited && initOk
      modifies this`mapInfo, this`index, this`runs, mapInfo, mapInfo.nodes
      ensures Valid() && State() == Rebuilt(old(State()), maps)
      ensures maps == None ==> unchanged(this) && unchanged(mapInfo) && unchanged(mapInfo.nodes)
      ensures maps == None ==> created == {} && freed == []
      ensures maps.Some? ==> forall p ::
        p in index <==> exists n :: FirstAnnounced(maps.value, hooks, ignores, p, n)
      ensures maps.Some? ==> forall p, n :: FirstAnnounced(maps.value, hooks, ignores, p, n) ==>
        p in index && index[p].baseAddr == maps.value[n].base
      ensures maps.Some? ==> runs == old(runs) + Runs(maps.value, hooks, ignores, old(Bases()))
      ensures fresh(created) && fresh(mapInfo.nodes - old(mapInfo.nodes)) && fresh({mapInfo} - {old(mapInfo)})
      ensures multiset(freed) + multiset(mapInfo.nodes) == multiset(old(mapInfo.nodes)) + multiset(created)
    {
      created, freed := {}, [];
      if maps == None {
        return;
      }
      created, freed := RefreshFrom(maps.value);
      BasesAre(index, Refreshed(maps.value, hooks, ignores));
      IndexMeans(index, maps.value, hooks, ignores);
    }

    method RefreshFrom(lines: seq<MapLine>) returns (ghost created: set<Node>, ghost freed: seq<Node>)
      requires Valid() && inited
      modifies this`mapInfo, this`index, this`runs, mapInfo, mapInfo.nodes
      ensures Valid() && Located(index, Refreshed(lines, hooks, ignores))
      ensures runs == old(runs) + Runs(lines, hooks, ignores, old(Bases()))
      ensures fresh(created) && fresh(mapInfo.nodes - old(mapInfo.nodes)) && fresh({mapInfo} - {old(mapInfo)})
      ensures multiset(freed) + multiset(mapInfo.nodes) == multiset(old(mapInfo.nodes)) + multiset(created)
    {
      TableValues(mapInfo, index);
      var refreshed;
      ghost var pr;
      refreshed, pr := Rebuild(lines);
      created := pr.created;
      freed := Finish(refreshed, index, pr);
    }

    /** The base addresses of located entries. */
    lemma BasesAre(entries: map<string, Node>, bases: map<string, nat>)
      requires Located(entries, bases)
      ensures (map p | p in entries :: entries[p].baseAddr) == bases
    {
    }

    /** The base addresses in the index. */
    ghost function Bases(): (bases: map<string, nat>)
      reads this, index.Values`baseAddr
    {
      map p | p in index :: index[p].baseAddr
    }

    ghost function State(): Session
      reads this, index.Values`baseAddr
    {
      Session(hooks, ignores, inited, initOk, Bases(), runs)
    }

    /** `regex` is None when the expression does not compile, `symbol` and `newFunc` when the caller passes NULL. */
    method Register(regex: Option<string -> bool>, symbol: Option<string>, newFunc: Option<nat>, oldFunc: nat)
      returns (r: int)
      requires Valid()
      modifies this`hooks
      ensures Valid()
      ensures State() == After(old(State()), Call.Register(regex, symbol, newFunc, oldFunc))
      ensures r == Answer(old(State()), Call.Register(regex, symbol, newFunc, oldFunc))
      ensures r == 0 <==> regex.Some? && symbol.Some? && newFunc.Some? && !inited
      ensures r == 0 ==> hooks == old(hooks) + [HookInfo(regex.value, symbol.value, newFunc.value, oldFunc)]
      ensures r != 0 ==> r == XH_ERRNO_INVAL && hooks == old(hooks)
    {
      if symbol == None || newFunc == None {
        return XH_ERRNO_INVAL;
      }
      if inited {
        return XH_ERRNO_INVAL;
      }
      if regex.None? {
        return XH_ERRNO_INVAL;
      }
      hooks := hooks + [HookInfo(regex.value, symbol.value, newFunc.value, oldFunc)];
      r := 0;
    }

    method Ignore(regex: Option<string -> bool>, symbol: Option<string>) returns (r: int)
      requires Valid()
      modifies this`ignores
      ensures Valid()
      ensures State() == After(old(State()), Call.Ignore(regex, symbol))
      ensures r == Answer(old(State()), Call.Ignore(regex, symbol))
      ensures r == 0 <==> regex.Some? && !inited
      ensures r == 0 ==> ignores == old(ignores) + [IgnoreInfo(regex.value, symbol)]
      ensures r != 0 ==> r == XH_ERRNO_INVAL && ignores == old(ignores)
    {
      if inited {
        return XH_ERRNO_INVAL;
      }
      if regex.None? {
        return XH_ERRNO_INVAL;
      }
      ignores := ignores + [IgnoreInfo(regex.value, symbol)];
      r := 0;
    }

    /** `handlerOk` tells whether the signal handler can be installed; only the first call tries. */
    method InitOnce(handlerOk: bool)
      requires Valid()
      modifies this`inited, this`initOk
      ensures Valid() && inited && State() == Started(old(State()), handlerOk)
      ensures initOk == if old(inited) then old(initOk) else handlerOk
    {
      if inited {
        return;
      }
      inited := true;
      if !handlerOk {
        return;
      }
      initOk := true;
    }

    /** `created` and `freed` are the entries that are allocated and freed, in the order in which they are freed. */
    method Refresh(handlerOk: bool, maps: Option<seq<MapLine>>)
      returns (r: int, ghost created: set<Node>, ghost freed: seq<Node>)
      requires Valid()
      modifies this, mapInfo, mapInfo.nodes
      ensures Valid()
      ensures State() == After(old(State()), Call.Refresh(handlerOk, maps))
      ensures r == Answer(old(State()), Call.Refresh(handlerOk, maps))
      ensures inited && initOk == (if old(inited) then old(initOk) else handlerOk)
      ensures r == if initOk then 0 else XH_ERRNO_UNKNOWN
      ensures multiset(freed) + multiset(mapInfo.nodes) == multiset(old(mapInfo.nodes)) + multiset(created)
      ensures r != 0 || maps == None ==>
        mapInfo == old(mapInfo) && unchanged(mapInfo) && unchanged(mapInfo.nodes) && created == {} && freed == []
      ensures fresh(created) && fresh(mapInfo.nodes - old(mapInfo.nodes)) && fresh({mapInfo} - {old(mapInfo)})
    {
      InitOnce(handlerOk);
      created, freed := {}, [];
      if !initOk {
        return XH_ERRNO_UNKNOWN, created, freed;
      }
      created, freed := RefreshImpl(maps);
      assert State() == Rebuilt(Started(old(State()), handlerOk), maps);
      r := 0;
    }

    /** Empties the tree and both lists; `freed` are the entries in the order in which they are freed. */
    method Clear() returns (freed: seq<Node>)
      requires Valid()
      modifies this, mapInfo, mapInfo.nodes
      ensures Valid() && State() == NEW_SESSION
      ensures hooks == [] && ignores == [] && !inited && !initOk && index == map[]
      ensures mapInfo == old(mapInfo) && mapInfo.nodes == {} && multiset(freed) == multiset(old(mapInfo.nodes))
    {
      mapInfo.OrderHoldsEachNodeOnce();
      inited, initOk := false, false;
      freed := mapInfo.Drain();
      index := map[];
      hooks, ignores, runs := [], [], [];
    }

    /** One call of an application. */
    method Perform(call: Call) returns (r: int)
      requires Valid()
      modifies this, mapInfo, mapInfo.nodes
      ensures Valid() && State() == After(old(State()), call) && r == Answer(old(State()), call)
      ensures fresh(mapInfo.nodes - old(mapInfo.nodes)) && fresh({mapInfo} - {old(mapInfo)})
    {
      match call {
        case Register(regex, symbol, newFunc, oldFunc) => r := Register(regex, symbol, newFunc, oldFunc);
        case Ignore(regex, symbol) => r := Ignore(regex, symbol);
        case Refresh(handlerOk, maps) =>
          ghost var created, freed;
          r, created, freed := Refresh(handlerOk, maps);
        case Clear =>
          var freed := Clear();
          r := 0;
      }
    }
  }

  /** Plays a sequence of calls on a new engine: answers and state are those of module Calls, and each entry of the
      index is hooked at its base with the lists in force. */
  method Execute(calls: seq<Call>) returns (engine: Engine, answers: seq<int>)
    ensures engine.Valid() && engine.State() == AfterAll(calls) && answers == Answers(calls)
    ensures forall n :: n in engine.mapInfo.nodes ==> engine.HookedAsIs(n)
  {
    engine := new Engine();
    answers := [];
    for i := 0 to |calls|
      invariant engine.Valid() && fresh(engine) && fresh(engine.mapInfo) && fresh(engine.mapInfo.nodes)
      invariant engine.State() == AfterAll(calls[..i]) && answers == Answers(calls[..i])
    {
      assert calls[..i + 1][..i] == calls[..i];
      var r := engine.Perform(calls[i]);
      answers := answers + [r];
    }
    assert calls[..|calls|] == calls;
  }
}
