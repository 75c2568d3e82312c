/** What a sequence of calls to the library should lead to, call by call.

    This is the reference for the engine of module Core. An asynchronous refresh is one that happens at once. */
module Calls {
  import opened Errno
  import opened MapLines
  import opened Registry
  import opened Wrappers

  /** The lists, the flags, the base address of every library in the index, and every run of `xh_core_hook` since the
      last clear. */
  datatype Session = Session(
    hooks: seq<HookInfo>, ignores: seq<IgnoreInfo>, inited: bool, initOk: bool,
    bases: map<string, nat>, runs: seq<HookRun>)

  const NEW_SESSION := Session([], [], false, false, map[], [])

  /** The calls an application can make, with what the system answers to them: `regex` is None for an expression that
      does not compile, `symbol` and `newFunc` for a NULL, and `maps` where /proc/self/maps cannot be opened. */
  datatype Call =
    | Register(regex: Option<string -> bool>, symbol: Option<string>, newFunc: Option<nat>, oldFunc: nat)
    | Ignore(regex: Option<string -> bool>, symbol: Option<string>)
    | Refresh(handlerOk: bool, maps: Option<seq<MapLine>>)
    | Clear

  /** Only the first refresh tries to install the handler. */
  ghost function Started(s: Session, handlerOk: bool): Session {
    if s.inited then s else s.(inited := true, initOk := handlerOk)
  }

  ghost function Rebuilt(s: Session, maps: Option<seq<MapLine>>): Session {
    if !s.initOk || maps == None then s
    else
      s.(bases := Refreshed(maps.value, s.hooks, s.ignores),
         runs := s.runs + Runs(maps.value, s.hooks, s.ignores, s.bases))
  }

  ghost function Answer(s: Session, call: Call): int {
    match call
    case Register(regex, symbol, newFunc, _) =>
      if regex.Some? && symbol.Some? && newFunc.Some? && !s.inited then 0 else XH_ERRNO_INVAL
    case Ignore(regex, _) => if regex.Some? && !s.inited then 0 else XH_ERRNO_INVAL
    case Refresh(handlerOk, _) => if Started(s, handlerOk).initOk then 0 else XH_ERRNO_UNKNOWN
    case Clear => 0
  }

  ghost function After(s: Session, call: Call): Session {
    match call
    case Register(regex, symbol, newFunc, oldFunc) =>
      if Answer(s, call) != 0 then s
      else s.(hooks := s.hooks + [HookInfo(regex.value, symbol.value, newFunc.value, oldFunc)])
    case Ignore(regex, symbol) =>
      if Answer(s, call) != 0 then s else s.(ignores := s.ignores + [IgnoreInfo(regex.value, symbol)])
    case Refresh(handlerOk, maps) => Rebuilt(Started(s, handlerOk), maps)
    case Clear => NEW_SESSION
  }

  ghost function AfterAll(calls: seq<Call>): Session {
    if calls == [] then NEW_SESSION else After(AfterAll(calls[..|calls| - 1]), calls[|calls| - 1])
  }

  ghost function Answers(calls: seq<Call>): seq<int> {
    if calls == [] then []
    else
      var before := calls[..|calls| - 1];
      Answers(before) + [Answer(AfterAll(before), calls[|calls| - 1])]
  }

  /** A refresh has been asked for since the last clear. */
  ghost predicate Frozen(calls: seq<Call>) {
    calls != [] && !calls[|calls| - 1].Clear? && (calls[|calls| - 1].Refresh? || Frozen(calls[..|calls| - 1]))
  }

  /** The hooks and ignore entries that were added since the last clear, before the first refresh. */
  ghost function Registered(calls: seq<Call>): seq<HookInfo> {
    if calls == [] then []
    else
      var before := calls[..|calls| - 1];
      match calls[|calls| - 1]
      case Clear => []
      case Register(Some(regex), Some(symbol), Some(newFunc), oldFunc) =>
        Registered(before) + if Frozen(before) then [] else [HookInfo(regex, symbol, newFunc, oldFunc)]
      case _ => Registered(before)
  }

  ghost function Unwanted(calls: seq<Call>): seq<IgnoreInfo> {
    if calls == [] then []
    else
      var before := calls[..|calls| - 1];
      match calls[|calls| - 1]
      case Clear => []
      case Ignore(Some(regex), symbol) =>
        Unwanted(before) + if Frozen(before) then [] else [IgnoreInfo(regex, symbol)]
      case _ => Unwanted(before)
  }

  /** What the first refresh since the last clear found out about the handler. */
  ghost predicate HandlerInstalled(calls: seq<Call>) {
    calls != [] &&
    var before := calls[..|calls| - 1];
    match calls[|calls| - 1]
    case Clear => false
    case Refresh(handlerOk, _) => if Frozen(before) then HandlerInstalled(before) else handlerOk
    case _ => HandlerInstalled(before)
  }

  /** Lists and flags follow from the calls alone. */
  lemma {:induction false} ListsFollowCalls(calls: seq<Call>)
    ensures var s := AfterAll(calls);
      && s.hooks == Registered(calls) && s.ignores == Unwanted(calls)
      && s.inited == Frozen(calls) && s.initOk == HandlerInstalled(calls)
  {
    if calls != [] {
      ListsFollowCalls(calls[..|calls| - 1]);
    }
  }

  /** A refresh that can be carried out: what is in the index then, and which libraries are hooked. */
  lemma RefreshMeans(s: Session, handlerOk: bool, lines: seq<MapLine>, path: string)
    requires if s.inited then s.initOk else handlerOk
    ensures var t := After(s, Refresh(handlerOk, Some(lines)));
      && t.hooks == s.hooks && t.ignores == s.ignores && t.inited && t.initOk
      && (path in t.bases <==> exists n :: FirstAnnounced(lines, s.hooks, s.ignores, path, n))
      && (forall n :: FirstAnnounced(lines, s.hooks, s.ignores, path, n) ==>
            path in t.bases && t.bases[path] == lines[n].base)
      && s.runs <= t.runs
      && (forall run :: run in t.runs[|s.runs|..] <==>
            run.pathname in t.bases && run == HookRun(run.pathname, t.bases[run.pathname], s.hooks, s.ignores)
            && (run.pathname !in s.bases || s.bases[run.pathname] != t.bases[run.pathname]))
  {
    RefreshedMeans(lines, s.hooks, s.ignores, path);
    RunsAreStalePaths(lines, s.hooks, s.ignores, s.bases);
    var t := After(s, Refresh(handlerOk, Some(lines)));
    assert t.runs[|s.runs|..] == Runs(lines, s.hooks, s.ignores, s.bases);
  }

  /** The last run for every library in the index had its present base and the present lists. */
  ghost predicate Sound(s: Session) {
    && (forall p :: p in s.bases ==> LastRun(s.runs, p) == Some(HookRun(p, s.bases[p], s.hooks, s.ignores)))
    && (!s.inited ==> s.bases == map[] && !s.initOk)
  }

  lemma AfterIsSound(s: Session, call: Call)
    requires Sound(s)
    ensures Sound(After(s, call))
  {
    if call.Refresh? && Started(s, call.handlerOk).initOk && call.maps.Some? {
      forall p | p in Refreshed(call.maps.value, s.hooks, s.ignores)
        ensures LastRun(After(s, call).runs, p)
                == Some(HookRun(p, Refreshed(call.maps.value, s.hooks, s.ignores)[p], s.hooks, s.ignores))
      {
        LastRunAfterRefresh(call.maps.value, s.hooks, s.ignores, s.bases, s.runs, p);
      }
    }
  }

  /** Over every sequence of calls. */
  lemma {:induction false} SessionsAreSound(calls: seq<Call>)
    ensures Sound(AfterAll(calls))
  {
    if calls != [] {
      SessionsAreSound(calls[..|calls| - 1]);
      AfterIsSound(AfterAll(calls[..|calls| - 1]), calls[|calls| - 1]);
    }
  }

  /** From the first refresh to the next clear the lists stay as they are. */
  lemma {:induction false} ListsAreFrozen(calls: seq<Call>, more: seq<Call>)
    requires AfterAll(calls).inited && Clear !in more
    ensures AfterAll(calls + more).inited
    ensures AfterAll(calls + more).hooks == AfterAll(calls).hooks
    ensures AfterAll(calls + more).ignores == AfterAll(calls).ignores
  {
    if more == [] {
      assert calls + more == calls;
    } else {
      var front, last := more[..|more| - 1], more[|more| - 1];
      ListsAreFrozen(calls, front);
      assert (calls + more)[..|calls + more| - 1] == calls + front;
    }
  }
}
