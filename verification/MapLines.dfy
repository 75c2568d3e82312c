/** The lines of /proc/self/maps as xh_core.c reads them, and what one refresh should make of them. */
module MapLines {
  import opened Registry
  import opened Wrappers

  /** A line after `sscanf`: base address, the permission letters that are looked at, file offset and the
      text from the pathname on; `elfOk` is what the ELF header check says about the base address. */
  datatype MapLine = MapLine(base: nat, readable: bool, privately: bool, offset: nat, text: string, elfOk: bool)

  /** One call of `xh_core_hook`, with the lists in force at that moment. */
  datatype HookRun = HookRun(pathname: string, base: nat, hooks: seq<HookInfo>, ignores: seq<IgnoreInfo>)

  /** The pathname is the text without the newline at its end. */
  ghost function Pathname(line: MapLine): string {
    if line.text != [] && line.text[|line.text| - 1] == '\n' then line.text[..|line.text| - 1] else line.text
  }

  /** The checks before the path filter. */
  ghost predicate Candidate(line: MapLine) {
    && line.readable && line.privately && line.offset == 0
    && Pathname(line) != [] && Pathname(line)[0] != '['
  }

  ghost predicate TakenUp(line: MapLine, hooks: seq<HookInfo>, ignores: seq<IgnoreInfo>) {
    Candidate(line) && Accepts(hooks, ignores, Pathname(line)) && line.elfOk
  }

  /** The first line for a pathname settles its base address. */
  ghost function AddBase(done: map<string, nat>, path: string, base: nat): map<string, nat> {
    if path in done then done else done[path := base]
  }

  /** A library is hooked when it is new or when it moved since `before`. */
  ghost predicate Stale(before: map<string, nat>, path: string, base: nat) {
    path in before ==> before[path] != base
  }

  /** The hook run, if any, of a library found at `base` when the paths `done` have been dealt with. */
  ghost function NewRun(done: map<string, nat>, before: map<string, nat>, path: string, base: nat,
                        hooks: seq<HookInfo>, ignores: seq<IgnoreInfo>): seq<HookRun> {
    if path !in done && Stale(before, path, base) then [HookRun(path, base, hooks, ignores)] else []
  }

  /** What one line adds to the paths dealt with, and to the hook runs. */
  ghost function Advance(done: map<string, nat>, line: MapLine, hooks: seq<HookInfo>,
                         ignores: seq<IgnoreInfo>): map<string, nat> {
    if TakenUp(line, hooks, ignores) then AddBase(done, Pathname(line), line.base) else done
  }

  ghost function LineRun(done: map<string, nat>, before: map<string, nat>, line: MapLine,
                         hooks: seq<HookInfo>, ignores: seq<IgnoreInfo>): seq<HookRun> {
    if TakenUp(line, hooks, ignores) then NewRun(done, before, Pathname(line), line.base, hooks, ignores) else []
  }

  /** The base address of the first line taken up for each pathname. */
  ghost function Refreshed(lines: seq<MapLine>, hooks: seq<HookInfo>, ignores: seq<IgnoreInfo>): map<string, nat> {
    if lines == [] then map[]
    else Advance(Refreshed(lines[..|lines| - 1], hooks, ignores), lines[|lines| - 1], hooks, ignores)
  }

  /** The hook runs of a refresh, in the order of the lines. */
  ghost function Runs(lines: seq<MapLine>, hooks: seq<HookInfo>, ignores: seq<IgnoreInfo>,
                      before: map<string, nat>): seq<HookRun> {
    if lines == [] then []
    else
      var front := lines[..|lines| - 1];
      Runs(front, hooks, ignores, before)
      + LineRun(Refreshed(front, hooks, ignores), before, lines[|lines| - 1], hooks, ignores)
  }

  lemma OneMoreLine(lines: seq<MapLine>, n: nat, hooks: seq<HookInfo>, ignores: seq<IgnoreInfo>,
                    before: map<string, nat>)
    requires n < |lines|
    ensures var done := Refreshed(lines[..n], hooks, ignores);
      && Refreshed(lines[..n + 1], hooks, ignores) == Advance(done, lines[n], hooks, ignores)
      && Runs(lines[..n + 1], hooks, ignores, before)
         == Runs(lines[..n], hooks, ignores, before) + LineRun(done, before, lines[n], hooks, ignores)
  {
    assert lines[..n + 1][..n] == lines[..n];
  }

  ghost predicate IsFirstLine(lines: seq<MapLine>, hooks: seq<HookInfo>, ignores: seq<IgnoreInfo>, path: string,
                              n: int) {
    && 0 <= n < |lines| && TakenUp(lines[n], hooks, ignores) && Pathname(lines[n]) == path
    && forall k :: 0 <= k < n && Pathname(lines[k]) == path ==> !TakenUp(lines[k], hooks, ignores)
  }

  /** A path is in the refreshed index exactly when a line is taken up for it, with the base of the first such line. */
  lemma {:induction false} RefreshedIsFirst(lines: seq<MapLine>, hooks: seq<HookInfo>, ignores: seq<IgnoreInfo>,
                                            path: string)
    ensures var m := Refreshed(lines, hooks, ignores);
      && (path in m <==> exists n :: IsFirstLine(lines, hooks, ignores, path, n))
      && (forall n :: IsFirstLine(lines, hooks, ignores, path, n) ==> path in m && m[path] == lines[n].base)
  {
    if lines != [] {
      var front, last := lines[..|lines| - 1], |lines| - 1;
      RefreshedIsFirst(front, hooks, ignores, path);
      assert forall k :: 0 <= k < last ==> front[k] == lines[k];
      forall n | 0 <= n < last
        ensures IsFirstLine(front, hooks, ignores, path, n) == IsFirstLine(lines, hooks, ignores, path, n)
      {
      }
      if path !in Refreshed(front, hooks, ignores) {
        NoFirstLine(front, hooks, ignores, path);
        assert TakenUp(lines[last], hooks, ignores) && Pathname(lines[last]) == path ==>
          IsFirstLine(lines, hooks, ignores, path, last);
      }
    }
  }

  lemma NoFirstLine(lines: seq<MapLine>, hooks: seq<HookInfo>, ignores: seq<IgnoreInfo>, path: string)
    requires forall n :: !IsFirstLine(lines, hooks, ignores, path, n)
    ensures forall k :: 0 <= k < |lines| && Pathname(lines[k]) == path ==> !TakenUp(lines[k], hooks, ignores)
  {
    var k := 0;
    while k < |lines|
      invariant 0 <= k <= |lines|
      invariant forall j :: 0 <= j < k && Pathname(lines[j]) == path ==> !TakenUp(lines[j], hooks, ignores)
    {
      assert !IsFirstLine(lines, hooks, ignores, path, k);
      k := k + 1;
    }
  }

  /** Spelled out: the line shows the start of a library that has the ELF magic, its text is the path, with or without
      a newline behind it, and the first hook that matches the path is not ignored. */
  ghost predicate Announces(line: MapLine, hooks: seq<HookInfo>, ignores: seq<IgnoreInfo>, path: string) {
    && line.readable && line.privately && line.offset == 0 && line.elfOk
    && path != "" && path[0] != '['
    && (line.text == path + "\n" || (line.text == path && path[|path| - 1] != '\n'))
    && exists n :: Chosen(hooks, ignores, path, n)
  }

  lemma TakenUpMeans(line: MapLine, hooks: seq<HookInfo>, ignores: seq<IgnoreInfo>, path: string)
    ensures TakenUp(line, hooks, ignores) && Pathname(line) == path <==> Announces(line, hooks, ignores, path)
  {
    AcceptsMeans(hooks, ignores, path);
    if line.text == path + "\n" {
      assert line.text[..|line.text| - 1] == path;
    }
    if line.text != [] && line.text[|line.text| - 1] == '\n' {
      assert line.text == line.text[..|line.text| - 1] + "\n";
    }
  }

  ghost predicate FirstAnnounced(lines: seq<MapLine>, hooks: seq<HookInfo>, ignores: seq<IgnoreInfo>, path: string,
                                 n: int) {
    && 0 <= n < |lines| && Announces(lines[n], hooks, ignores, path)
    && forall k :: 0 <= k < n ==> !Announces(lines[k], hooks, ignores, path)
  }

  /** Spelled out: a path is in the refreshed index exactly when a line announces it, with the base of the first. */
  lemma RefreshedMeans(lines: seq<MapLine>, hooks: seq<HookInfo>, ignores: seq<IgnoreInfo>, path: string)
    ensures var m := Refreshed(lines, hooks, ignores);
      && (path in m <==> exists n :: FirstAnnounced(lines, hooks, ignores, path, n))
      && (forall n :: FirstAnnounced(lines, hooks, ignores, path, n) ==> path in m && m[path] == lines[n].base)
  {
    RefreshedIsFirst(lines, hooks, ignores, path);
    forall n: int
      ensures FirstAnnounced(lines, hooks, ignores, path, n) <==> IsFirstLine(lines, hooks, ignores, path, n)
    {
      forall k | 0 <= k < |lines|
        ensures TakenUp(lines[k], hooks, ignores) && Pathname(lines[k]) == path
                <==> Announces(lines[k], hooks, ignores, path)
      {
        TakenUpMeans(lines[k], hooks, ignores, path);
      }
    }
  }

  /** Exactly the paths that are new or moved are hooked, each of them once, at the new base. */
  lemma {:induction false} RunsAreStalePaths(
      lines: seq<MapLine>, hooks: seq<HookInfo>, ignores: seq<IgnoreInfo>, before: map<string, nat>)
    ensures var m, runs := Refreshed(lines, hooks, ignores), Runs(lines, hooks, ignores, before);
      && (forall run :: run in runs <==>
            run.pathname in m && run == HookRun(run.pathname, m[run.pathname], hooks, ignores)
            && (run.pathname !in before || before[run.pathname] != m[run.pathname]))
      && (forall i, j :: 0 <= i < j < |runs| ==> runs[i].pathname != runs[j].pathname)
  {
    if lines != [] {
      var front := lines[..|lines| - 1];
      RunsAreStalePaths(front, hooks, ignores, before);
      var frontRuns := Runs(front, hooks, ignores, before);
      assert forall i :: 0 <= i < |frontRuns| ==> frontRuns[i] in frontRuns;
    }
  }

  /** A library is hooked before those that are announced later. */
  lemma {:induction false} RunsInOrder(
      lines: seq<MapLine>, hooks: seq<HookInfo>, ignores: seq<IgnoreInfo>, before: map<string, nat>, i: nat, j: nat)
    returns (k: nat)
    requires i < j < |Runs(lines, hooks, ignores, before)|
    ensures var runs := Runs(lines, hooks, ignores, before);
      && k <= |lines|
      && runs[i].pathname in Refreshed(lines[..k], hooks, ignores)
      && runs[j].pathname !in Refreshed(lines[..k], hooks, ignores)
  {
    var front := lines[..|lines| - 1];
    var runs := Runs(front, hooks, ignores, before);
    RunsAreStalePaths(front, hooks, ignores, before);
    if j < |runs| {
      k := RunsInOrder(front, hooks, ignores, before, i, j);
      assert front[..k] == lines[..k];
    } else {
      k := |front|;
      assert runs[i] in runs;
    }
  }

  /** The last run for a path, if there is one. */
  ghost function LastRun(runs: seq<HookRun>, path: string): Option<HookRun> {
    if runs == [] then None
    else if runs[|runs| - 1].pathname == path then Some(runs[|runs| - 1])
    else LastRun(runs[..|runs| - 1], path)
  }

  lemma {:induction false} LastRunOfBoth(earlier: seq<HookRun>, later: seq<HookRun>, path: string)
    ensures LastRun(earlier + later, path)
            == if LastRun(later, path).Some? then LastRun(later, path) else LastRun(earlier, path)
  {
    if later == [] {
      assert earlier + later == earlier;
    } else {
      assert (earlier + later)[..|earlier + later| - 1] == earlier + later[..|later| - 1];
      LastRunOfBoth(earlier, later[..|later| - 1], path);
    }
  }

  lemma {:induction false} LastRunIsThere(runs: seq<HookRun>, path: string)
    ensures LastRun(runs, path).Some? ==>
      LastRun(runs, path).value in runs && LastRun(runs, path).value.pathname == path
    ensures LastRun(runs, path).None? ==> forall run :: run in runs ==> run.pathname != path
  {
    if runs != [] {
      LastRunIsThere(runs[..|runs| - 1], path);
      assert runs == runs[..|runs| - 1] + [runs[|runs| - 1]];
    }
  }

  /** If the last runs before a refresh were at the old bases, those after it are at the new ones. */
  lemma LastRunAfterRefresh(lines: seq<MapLine>, hooks: seq<HookInfo>, ignores: seq<IgnoreInfo>,
                            before: map<string, nat>, earlier: seq<HookRun>, path: string)
    requires forall p :: p in before ==> LastRun(earlier, p) == Some(HookRun(p, before[p], hooks, ignores))
    requires path in Refreshed(lines, hooks, ignores)
    ensures LastRun(earlier + Runs(lines, hooks, ignores, before), path)
            == Some(HookRun(path, Refreshed(lines, hooks, ignores)[path], hooks, ignores))
  {
    var runs := Runs(lines, hooks, ignores, before);
    RunsAreStalePaths(lines, hooks, ignores, before);
    LastRunOfBoth(earlier, runs, path);
    LastRunIsThere(runs, path);
    var run := HookRun(path, Refreshed(lines, hooks, ignores)[path], hooks, ignores);
    if Stale(before, path, run.base) {
      assert run in runs;
    }
  }
}
