/** The hook and ignore lists of xh_core.c, and the two loops that decide from them.

    A compiled pathname expression is a predicate on paths; `regexec` applies it. */
module Registry {
  import opened Wrappers

  datatype HookInfo = HookInfo(regex: string -> bool, symbol: string, newFunc: nat, oldFunc: nat)

  /** `symbol` is None for an entry that ignores every symbol. */
  datatype IgnoreInfo = IgnoreInfo(regex: string -> bool, symbol: Option<string>)

  /** Some entry ignores every symbol of the library at `path`. */
  ghost predicate IgnoresLibrary(ignores: seq<IgnoreInfo>, path: string) {
    exists i :: 0 <= i < |ignores| && ignores[i].regex(path) && ignores[i].symbol == None
  }

  /** Some entry ignores this symbol, or every symbol, of the library at `path`. */
  ghost predicate Ignored(ignores: seq<IgnoreInfo>, path: string, symbol: string) {
    exists i :: 0 <= i < |ignores| && ignores[i].regex(path) && ignores[i].symbol in {None, Some(symbol)}
  }

  /** What the lists mean: hook `h` applies to the library at `path`. */
  ghost predicate Applies(ignores: seq<IgnoreInfo>, path: string, h: HookInfo) {
    h.regex(path) && !Ignored(ignores, path, h.symbol)
  }

  /** The hooks that apply, in list order. */
  ghost function Selected(hooks: seq<HookInfo>, ignores: seq<IgnoreInfo>, path: string): seq<HookInfo> {
    if hooks == [] then []
    else
      var front := Selected(hooks[..|hooks| - 1], ignores, path);
      var last := hooks[|hooks| - 1];
      if Applies(ignores, path, last) then front + [last] else front
  }

  lemma {:induction false} SelectedAreApplicable(hooks: seq<HookInfo>, ignores: seq<IgnoreInfo>, path: string)
    ensures forall h :: h in Selected(hooks, ignores, path) <==> h in hooks && Applies(ignores, path, h)
  {
    if hooks != [] {
      SelectedAreApplicable(hooks[..|hooks| - 1], ignores, path);
      assert hooks == hooks[..|hooks| - 1] + [hooks[|hooks| - 1]];
    }
  }

  lemma AppliesMeans(ignores: seq<IgnoreInfo>, path: string, h: HookInfo)
    ensures Applies(ignores, path, h) <==>
      h.regex(path) && forall i :: 0 <= i < |ignores| && ignores[i].regex(path) ==>
        ignores[i].symbol.Some? && ignores[i].symbol.value != h.symbol
  {
  }

  /** Spelled out: they are the hooks at the places, in ascending order, where the expression of the hook matches the
      path and no ignore entry that matches it has the symbol of the hook, or none. */
  lemma {:induction false} SelectedInOrder(hooks: seq<HookInfo>, ignores: seq<IgnoreInfo>, path: string)
    returns (places: seq<nat>)
    ensures |places| == |Selected(hooks, ignores, path)|
    ensures forall j :: 0 <= j < |places| ==>
      places[j] < |hooks| && Selected(hooks, ignores, path)[j] == hooks[places[j]]
    ensures forall i, j :: 0 <= i < j < |places| ==> places[i] < places[j]
    ensures forall k: nat :: k < |hooks| ==>
      (k in places <==>
        hooks[k].regex(path) &&
        forall i :: 0 <= i < |ignores| && ignores[i].regex(path) ==>
          ignores[i].symbol.Some? && ignores[i].symbol.value != hooks[k].symbol)
  {
    places := [];
    if hooks != [] {
      var last := |hooks| - 1;
      places := SelectedInOrder(hooks[..last], ignores, path);
      assert forall j :: 0 <= j < |places| ==> places[j] in places;
      AppliesMeans(ignores, path, hooks[last]);
      if Applies(ignores, path, hooks[last]) {
        places := places + [last];
      }
      forall k: nat | k < last
        ensures hooks[..last][k] == hooks[k]
      {
      }
    }
  }

  /** A symbol-less ignore entry silences every hook. */
  lemma NothingSelected(hooks: seq<HookInfo>, ignores: seq<IgnoreInfo>, path: string)
    requires IgnoresLibrary(ignores, path)
    ensures Selected(hooks, ignores, path) == []
  {
    var i :| 0 <= i < |ignores| && ignores[i].regex(path) && ignores[i].symbol == None;
    if hooks != [] {
      assert Ignored(ignores, path, hooks[|hooks| - 1].symbol);
      NothingSelected(hooks[..|hooks| - 1], ignores, path);
    }
  }

  /** Neither the order nor the repetition of ignore entries matters. */
  lemma {:induction false} SelectedIgnoresOrder(
      hooks: seq<HookInfo>, ignores: seq<IgnoreInfo>, other: seq<IgnoreInfo>, path: string)
    requires forall ii :: ii in ignores <==> ii in other
    ensures Selected(hooks, ignores, path) == Selected(hooks, other, path)
  {
    if hooks != [] {
      var h := hooks[|hooks| - 1];
      SelectedIgnoresOrder(hooks[..|hooks| - 1], ignores, other, path);
      if i :| 0 <= i < |ignores| && ignores[i].regex(path) && ignores[i].symbol in {None, Some(h.symbol)} {
        assert ignores[i] in other;
      }
      if i :| 0 <= i < |other| && other[i].regex(path) && other[i].symbol in {None, Some(h.symbol)} {
        assert other[i] in ignores;
      }
    }
  }

  /** The hooking loop: the hooks for which `xh_elf_hook` is called, in the order of the calls. */
  method HookLoop(hooks: seq<HookInfo>, ignores: seq<IgnoreInfo>, path: string) returns (calls: seq<HookInfo>)
    ensures calls == Selected(hooks, ignores, path)
  {
    calls := [];
    var n := 0;
    while n < |hooks|
      invariant 0 <= n <= |hooks|
      invariant calls == Selected(hooks[..n], ignores, path)
    {
      assert hooks[..n + 1][..n] == hooks[..n];
      if hooks[n].regex(path) {
        var ignore := false;
        var i := 0;
        while i < |ignores|
          invariant 0 <= i <= |ignores|
          invariant !ignore
          invariant forall k :: 0 <= k < i ==>
            !(ignores[k].regex(path) && ignores[k].symbol in {None, Some(hooks[n].symbol)})
        {
          if ignores[i].regex(path) {
            if ignores[i].symbol == None {
              NothingSelected(hooks, ignores, path);
              NothingSelected(hooks[..n], ignores, path);
              return;
            }
            if ignores[i].symbol == Some(hooks[n].symbol) {
              ignore := true;
              break;
            }
          }
          i := i + 1;
        }
        if !ignore {
          calls := calls + [hooks[n]];
        }
      }
      n := n + 1;
    }
    assert hooks[..|hooks|] == hooks;
  }

  /** The first hook whose expression matches decides whether a path is taken up. */
  ghost predicate Accepts(hooks: seq<HookInfo>, ignores: seq<IgnoreInfo>, path: string) {
    exists n :: IsFirstMatch(hooks, path, n) && Applies(ignores, path, hooks[n])
  }

  /** Spelled out: hook `n` is the first whose expression matches the path, and no ignore entry that matches the path
      has its symbol, or none. */
  ghost predicate Chosen(hooks: seq<HookInfo>, ignores: seq<IgnoreInfo>, path: string, n: int) {
    && 0 <= n < |hooks| && hooks[n].regex(path) && (forall k :: 0 <= k < n ==> !hooks[k].regex(path))
    && forall i :: 0 <= i < |ignores| && ignores[i].regex(path) ==>
         ignores[i].symbol.Some? && ignores[i].symbol.value != hooks[n].symbol
  }

  lemma AcceptsMeans(hooks: seq<HookInfo>, ignores: seq<IgnoreInfo>, path: string)
    ensures Accepts(hooks, ignores, path) <==> exists n :: Chosen(hooks, ignores, path, n)
  {
    forall n | 0 <= n < |hooks|
      ensures Chosen(hooks, ignores, path, n)
              <==> IsFirstMatch(hooks, path, n) && Applies(ignores, path, hooks[n])
    {
      AppliesMeans(ignores, path, hooks[n]);
    }
  }

  ghost predicate IsFirstMatch(hooks: seq<HookInfo>, path: string, n: int) {
    0 <= n < |hooks| && hooks[n].regex(path) && forall k :: 0 <= k < n ==> !hooks[k].regex(path)
  }

  /** The path filter of the refresh loop, with its `break` out of the outer loop after the first match. */
  method Filter(hooks: seq<HookInfo>, ignores: seq<IgnoreInfo>, path: string) returns (accepted: bool)
    ensures accepted == Accepts(hooks, ignores, path)
  {
    accepted := false;
    var n := 0;
    while n < |hooks|
      invariant 0 <= n <= |hooks|
      invariant forall k :: 0 <= k < n ==> !hooks[k].regex(path)
    {
      if hooks[n].regex(path) {
        assert IsFirstMatch(hooks, path, n);
        var i := 0;
        while i < |ignores|
          invariant 0 <= i <= |ignores|
          invariant forall k :: 0 <= k < i ==>
            !(ignores[k].regex(path) && ignores[k].symbol in {None, Some(hooks[n].symbol)})
        {
          if ignores[i].regex(path) && (ignores[i].symbol == None || ignores[i].symbol == Some(hooks[n].symbol)) {
            assert Ignored(ignores, path, hooks[n].symbol);
            return;
          }
          i := i + 1;
        }
        accepted := true;
        return;
      }
      n := n + 1;
    }
  }

  /** A path that is taken up gets at least one hook. */
  lemma AcceptedIsHooked(hooks: seq<HookInfo>, ignores: seq<IgnoreInfo>, path: string)
    requires Accepts(hooks, ignores, path)
    ensures Selected(hooks, ignores, path) != []
  {
    var n :| IsFirstMatch(hooks, path, n) && Applies(ignores, path, hooks[n]);
    SelectedAreApplicable(hooks, ignores, path);
    assert hooks[n] in Selected(hooks, ignores, path);
  }

  /** The converse fails for exactly those paths whose first matching hook is ignored by name while a
      later one applies: there are hooks to place, but the filter turns the path away. */
  lemma TurnedAwayThoughHookable(hooks: seq<HookInfo>, ignores: seq<IgnoreInfo>, path: string, n: int)
    requires IsFirstMatch(hooks, path, n)
    ensures (Selected(hooks, ignores, path) != [] && !Accepts(hooks, ignores, path)) <==>
            (Ignored(ignores, path, hooks[n].symbol) && exists h :: h in hooks[n + 1..] && Applies(ignores, path, h))
  {
    SelectedAreApplicable(hooks, ignores, path);
    var sel := Selected(hooks, ignores, path);
    if sel != [] && Ignored(ignores, path, hooks[n].symbol) {
      var h := sel[0];
      assert h in sel;
      var m :| 0 <= m < |hooks| && hooks[m] == h;
      assert h == hooks[n + 1..][m - n - 1];
    }
    if h :| h in hooks[n + 1..] && Applies(ignores, path, h) {
      assert h in sel;
    }
  }

  /** Such a path exists. */
  lemma FilterIsStricterThanHooking(h1: HookInfo, h2: HookInfo, path: string)
    requires h1.regex(path) && h2.regex(path) && h1.symbol != h2.symbol
    ensures var ignores := [IgnoreInfo(h1.regex, Some(h1.symbol))];
      Selected([h1, h2], ignores, path) == [h2] && !Accepts([h1, h2], ignores, path)
  {
    var ignores := [IgnoreInfo(h1.regex, Some(h1.symbol))];
    assert ignores[0].regex(path) && ignores[0].symbol == Some(h1.symbol);
    assert Ignored(ignores, path, h1.symbol);
    assert Selected([h1], ignores, path) == [] by {
      assert [h1][..0] == [];
    }
    assert [h1, h2][..1] == [h1];
  }
}
