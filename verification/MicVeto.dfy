/** The microphone veto of rp_pointer_manager.cpp and rp_nativehook_audio.c: hooked recorder calls, the states saved for
    them, and the switch. The platform is taken to carry out every call. */
module MicVeto {
  import opened Wrappers

  const SL_RECORDSTATE_STOPPED := 1
  const SL_RECORDSTATE_PAUSED := 2
  const SL_RECORDSTATE_RECORDING := 3

  type Engine = nat
  type RecordItf = nat
  type Stream = nat

  /** What is kept about an OpenSL engine; `recordState` is 0 until the app sets one. */
  datatype OpenSlesData = OpenSlesData(recordItf: Option<RecordItf>, recordState: nat, micBlocked: bool)

  datatype StreamState = Started | Paused | Stopped

  /** The globals, and in `records` and `streams` what the platform is doing. */
  datatype State = State(
    isMicAllowed: bool, data: map<Engine, OpenSlesData>, owner: map<RecordItf, Engine>, tracked: set<Stream>,
    records: map<RecordItf, nat>, streams: map<Stream, StreamState>)

  datatype Event =
    | CreateEngine(engine: Engine)
    | GetRecordInterface(engine: Engine, itf: RecordItf)
    | SetRecordState(itf: RecordItf, state: nat)
    | RequestStart(stream: Stream)
    | RequestStop(stream: Stream)
    | RequestPause(stream: Stream)
    | UpdateMicAccess(allowed: bool)

  const FRESH := OpenSlesData(None, 0, false)

  const INITIAL := State(true, map[], map[], {}, map[], map[])

  // ----- one event

  /** An engine after the switch has been set. */
  function Switched(d: OpenSlesData, allowed: bool): OpenSlesData {
    if d.recordItf.Some? && d.recordState == SL_RECORDSTATE_RECORDING then d.(micBlocked := !allowed) else d
  }

  /** What the platform is told about the record interface of an engine when the switch is set. */
  function Told(d: OpenSlesData, allowed: bool, now: nat): nat {
    if d.recordItf == None || d.recordState != SL_RECORDSTATE_RECORDING || d.micBlocked == !allowed then now
    else if allowed then SL_RECORDSTATE_RECORDING else SL_RECORDSTATE_PAUSED
  }

  /** The switch has been set, and the engines `done` have been dealt with. */
  function SwitchedFor(s: State, done: set<Engine>): State {
    s.(data := map e | e in s.data :: if e in done then Switched(s.data[e], s.isMicAllowed) else s.data[e],
       records := map i | i in s.records ::
         if i in s.owner && s.owner[i] in done && s.owner[i] in s.data && s.data[s.owner[i]].recordItf == Some(i)
         then Told(s.data[s.owner[i]], s.isMicAllowed, s.records[i]) else s.records[i])
  }

  /** What the platform does when the tracked streams have been told. */
  function StreamsTold(streams: map<Stream, StreamState>, allowed: bool, told: set<Stream>): map<Stream, StreamState> {
    map i | i in streams.Keys + told :: if i in told then (if allowed then Started else Paused) else streams[i]
  }

  function Saved(d: OpenSlesData, state: nat): OpenSlesData {
    d.(recordState := state, micBlocked := d.micBlocked && state == SL_RECORDSTATE_RECORDING)
  }

  function DataOf(s: State, e: Engine): OpenSlesData {
    if e in s.data then s.data[e] else FRESH
  }

  function Step(s: State, ev: Event): State {
    match ev
    case CreateEngine(e) => if e in s.data then s else s.(data := s.data[e := FRESH])
    case GetRecordInterface(e, itf) =>
      s.(data := s.data[e := DataOf(s, e).(recordItf := Some(itf))], owner := s.owner[itf := e],
         records := s.records[itf := SL_RECORDSTATE_STOPPED])
    case SetRecordState(itf, state) =>
      if !s.isMicAllowed || itf !in s.owner then s
      else
        var e := s.owner[itf];
        s.(data := s.data[e := Saved(DataOf(s, e), state)], records := s.records[itf := state])
    case RequestStart(stream) =>
      if !s.isMicAllowed then s
      else s.(tracked := s.tracked + {stream}, streams := s.streams[stream := Started])
    case RequestStop(stream) => s.(tracked := s.tracked - {stream}, streams := s.streams[stream := Stopped])
    case RequestPause(stream) => s.(streams := s.streams[stream := Paused])
    case UpdateMicAccess(allowed) =>
      var s1 := SwitchedFor(s.(isMicAllowed := allowed), s.data.Keys);
      s1.(streams := StreamsTold(s.streams, allowed, s.tracked))
  }

  // ----- the code

  class Microphone {
    var isMicAllowed: bool
    var data: map<Engine, OpenSlesData>
    var owner: map<RecordItf, Engine>
    var tracked: set<Stream>
    var records: map<RecordItf, nat>
    var streams: map<Stream, StreamState>

    constructor ()
      ensures Now() == INITIAL
    {
      isMicAllowed, data, owner, tracked, records, streams := true, map[], map[], {}, map[], map[];
    }

    ghost function Now(): State
      reads this
    {
      State(isMicAllowed, data, owner, tracked, records, streams)
    }

    /** The part of slCreateEngine and of opensles_allocate_memory that the veto sees. */
    method CreateEngine(e: Engine)
      modifies this
      ensures Now() == Step(old(Now()), Event.CreateEngine(e))
    {
      if e !in data {
        data := data[e := FRESH];
      }
    }

    /** hooked_opensles_GetInterface for a record interface, which the platform creates stopped. */
    method GetRecordInterface(e: Engine, itf: RecordItf)
      modifies this
      ensures Now() == Step(old(Now()), Event.GetRecordInterface(e, itf))
    {
      records := records[itf := SL_RECORDSTATE_STOPPED];
      var d := if e in data then data[e] else FRESH;
      data := data[e := d.(recordItf := Some(itf))];
      owner := owner[itf := e];
    }

    /** hooked_opensles_SetRecordState; `ok` is false for SL_RESULT_RESOURCE_LOST. */
    method SetRecordState(itf: RecordItf, state: nat) returns (ok: bool)
      requires itf in owner
      modifies this
      ensures ok == old(isMicAllowed) && Now() == Step(old(Now()), Event.SetRecordState(itf, state))
      ensures records == if ok then old(records)[itf := state] else old(records)
    {
      if !isMicAllowed { return false; }
      var e := owner[itf];
      SaveRecordState(e, state);
      records := records[itf := state];
      ok := true;
    }

    method SaveRecordState(e: Engine, state: nat)
      modifies `data
      ensures data == old(data)[e := Saved(DataOf(old(Now()), e), state)]
    {
      var d := if e in data then data[e] else FRESH;
      d := d.(recordState := state);
      if state != SL_RECORDSTATE_RECORDING {
        d := d.(micBlocked := false);
      }
      data := data[e := d];
    }

    method RequestStart(stream: Stream) returns (ok: bool)
      modifies this
      ensures ok == old(isMicAllowed) && Now() == Step(old(Now()), Event.RequestStart(stream))
    {
      if !isMicAllowed { return false; }
      tracked := tracked + {stream};
      streams := streams[stream := Started];
      ok := true;
    }

    method RequestStop(stream: Stream)
      modifies this
      ensures Now() == Step(old(Now()), Event.RequestStop(stream))
    {
      tracked := tracked - {stream};
      streams := streams[stream := Stopped];
    }

    method RequestPause(stream: Stream)
      modifies this
      ensures Now() == Step(old(Now()), Event.RequestPause(stream))
    {
      streams := streams[stream := Paused];
    }

    /** The map and the set are gone through in no particular order. */
    method UpdateMicAccess(allowed: bool)
      requires Linked(Now())
      modifies this
      ensures Now() == Step(old(Now()), Event.UpdateMicAccess(allowed))
    {
      isMicAllowed := allowed;
      UpdateOpensles();
      UpdateAaudio();
    }

    method UpdateOpensles()
      requires Linked(Now())
      modifies `data, `records
      ensures Now() == SwitchedFor(old(Now()), old(data.Keys))
    {
      ghost var was := Now();
      var todo := data.Keys;
      while todo != {}
        invariant todo <= was.data.Keys && Now() == SwitchedFor(was, was.data.Keys - todo)
        decreases |todo|
      {
        var e :| e in todo;
        ghost var done := was.data.Keys - todo;
        OneMoreEngine(was, done, e);
        UpdateEngine(e);
        todo := todo - {e};
        assert was.data.Keys - todo == done + {e};
      }
      assert was.data.Keys - todo == was.data.Keys;
    }

    method UpdateEngine(e: Engine)
      requires e in data && (data[e].recordItf.Some? ==> data[e].recordItf.value in records)
      modifies `data, `records
      ensures data == old(data)[e := Switched(old(data[e]), isMicAllowed)]
      ensures var itf := old(data[e]).recordItf;
        records == if itf == None then old(records)
                   else old(records)[itf.value := Told(old(data[e]), isMicAllowed, old(records)[itf.value])]
    {
      var d := data[e];
      if d.recordItf.Some? {
        if d.recordState == SL_RECORDSTATE_RECORDING {
          if !isMicAllowed {
            if !d.micBlocked {
              data := data[e := d.(micBlocked := true)];
              records := records[d.recordItf.value := SL_RECORDSTATE_PAUSED];
            }
          } else if d.micBlocked {
            data := data[e := d.(micBlocked := false)];
            records := records[d.recordItf.value := SL_RECORDSTATE_RECORDING];
          }
        }
      }
    }

    method UpdateAaudio()
      modifies `streams
      ensures streams == StreamsTold(old(streams), isMicAllowed, tracked)
    {
      ghost var was := streams;
      var todo := tracked;
      while todo != {}
        invariant todo <= tracked && streams == StreamsTold(was, isMicAllowed, tracked - todo)
        decreases |todo|
      {
        var stream :| stream in todo;
        OneMoreStream(was, isMicAllowed, tracked - todo, stream);
        streams := streams[stream := if isMicAllowed then Started else Paused];
        OneLess(tracked, todo, stream);
        todo := todo - {stream};
      }
      assert tracked - todo == tracked;
    }
  }

  /** The calls of a run, one after the other. */
  method Play(evs: seq<Event>) returns (m: Microphone)
    requires AdmissibleRun(evs)
    ensures m.Now() == Run(evs)
  {
    m := new Microphone();
    for k := 0 to |evs|
      invariant fresh(m) && m.Now() == Run(evs[..k])
    {
      assert evs[..k + 1][..k] == evs[..k];
      PrefixIsAdmissible(evs, k);
      PrefixIsAdmissible(evs, k + 1);
      AdmissibleRunsKeepGeneral(evs[..k]);
      match evs[k] {
        case CreateEngine(e) => m.CreateEngine(e);
        case GetRecordInterface(e, itf) => m.GetRecordInterface(e, itf);
        case SetRecordState(itf, state) => var ok := m.SetRecordState(itf, state);
        case RequestStart(stream) => var ok := m.RequestStart(stream);
        case RequestStop(stream) => m.RequestStop(stream);
        case RequestPause(stream) => m.RequestPause(stream);
        case UpdateMicAccess(allowed) => m.UpdateMicAccess(allowed);
      }
    }
    assert evs[..|evs|] == evs;
  }

  // ----- what every event keeps

  /** The interface that an engine remembers is one of its own. */
  ghost predicate Linked(s: State) {
    forall e :: e in s.data && s.data[e].recordItf.Some? ==>
      var i := s.data[e].recordItf.value; i in s.owner && s.owner[i] == e && i in s.records
  }

  lemma OneMoreEngine(s: State, done: set<Engine>, e: Engine)
    requires Linked(s) && e in s.data && e !in done
    ensures var a, b, d := SwitchedFor(s, done), SwitchedFor(s, done + {e}), s.data[e];
      && a.data[e] == d
      && b.data == a.data[e := Switched(d, s.isMicAllowed)]
      && b.records == if d.recordItf == None then a.records
                      else a.records[d.recordItf.value := Told(d, s.isMicAllowed, s.records[d.recordItf.value])]
  {
  }

  lemma OneLess(all: set<Stream>, todo: set<Stream>, x: Stream)
    requires x in todo && todo <= all
    ensures all - (todo - {x}) == (all - todo) + {x}
  {
  }

  lemma OneMoreStream(was: map<Stream, StreamState>, allowed: bool, done: set<Stream>, x: Stream)
    ensures StreamsTold(was, allowed, done + {x})
            == StreamsTold(was, allowed, done)[x := if allowed then Started else Paused]
  {
    var a, b := StreamsTold(was, allowed, done)[x := if allowed then Started else Paused],
                StreamsTold(was, allowed, done + {x});
    assert a.Keys == b.Keys;
  }

  /** What holds however many record interfaces an engine has: an engine is blocked exactly if it was set to record
      when the veto came, and no stream runs under the veto. */
  ghost predicate General(s: State) {
    && Linked(s) && s.records.Keys == s.owner.Keys
    && (forall i :: i in s.owner ==> s.owner[i] in s.data && s.data[s.owner[i]].recordItf.Some?)
    && (forall e :: e in s.data ==> EngineInv(s.isMicAllowed, s.data[e]))
    && (forall x :: x in s.streams && s.streams[x] == Started ==> s.isMicAllowed && x in s.tracked)
  }

  ghost predicate EngineInv(allowed: bool, d: OpenSlesData) {
    && (d.micBlocked <==> !allowed && d.recordState == SL_RECORDSTATE_RECORDING)
    && (d.recordItf == None ==> d.recordState == 0)
  }

  /** Every interface is the one that its engine remembers, and the platform does with it what is saved. */
  ghost predicate OneEach(s: State) {
    forall i :: i in s.owner ==>
      && i in s.records && s.owner[i] in s.data
      && s.data[s.owner[i]].recordItf == Some(i) && s.records[i] == Actual(s.data[s.owner[i]])
  }

  /** What the platform does with the only recorder of an engine. */
  ghost function Actual(d: OpenSlesData): nat {
    if d.micBlocked then SL_RECORDSTATE_PAUSED
    else if d.recordState == 0 then SL_RECORDSTATE_STOPPED else d.recordState
  }

  /** What the app may do: a record interface is obtained once, and before it is used, and the platform knows three
      states. */
  ghost predicate Admissible(s: State, ev: Event) {
    match ev
    case GetRecordInterface(e, itf) => itf !in s.owner
    case SetRecordState(itf, state) => itf in s.owner && 1 <= state <= 3
    case _ => true
  }

  /** In a legal run, moreover, an engine has only one of them. */
  ghost predicate Legal(s: State, ev: Event) {
    Admissible(s, ev) && (ev.GetRecordInterface? ==> DataOf(s, ev.engine).recordItf == None)
  }

  lemma StepKeepsGeneral(s: State, ev: Event)
    requires General(s) && Admissible(s, ev)
    ensures General(Step(s, ev))
  {
    if ev.UpdateMicAccess? {
      SwitchKeepsGeneral(s, ev.allowed);
    } else if ev.RequestStart? || ev.RequestStop? || ev.RequestPause? {
      EnginesLeftAlone(s, ev);
    } else {
      StreamsLeftAlone(s, ev);
    }
  }

  lemma SwitchKeepsGeneral(s: State, allowed: bool)
    requires General(s)
    ensures General(Step(s, UpdateMicAccess(allowed)))
  {
    var t := Step(s, UpdateMicAccess(allowed));
    SavedLeftAlone(s, allowed);
    assert t.records.Keys == s.records.Keys;
    forall e | e in t.data
      ensures EngineInv(allowed, t.data[e])
    {
      assert EngineInv(s.isMicAllowed, s.data[e]);
    }
  }

  lemma StepKeepsOneEach(s: State, ev: Event)
    requires General(s) && OneEach(s) && Legal(s, ev)
    ensures OneEach(Step(s, ev))
  {
    if ev.UpdateMicAccess? {
      SwitchKeepsOneEach(s, ev.allowed);
    } else if ev.RequestStart? || ev.RequestStop? || ev.RequestPause? {
      EnginesLeftAlone(s, ev);
    }
  }

  lemma SwitchKeepsOneEach(s: State, allowed: bool)
    requires General(s) && OneEach(s)
    ensures OneEach(Step(s, UpdateMicAccess(allowed)))
  {
    var t := Step(s, UpdateMicAccess(allowed));
    forall i | i in t.owner
      ensures t.records[i] == Actual(t.data[t.owner[i]])
    {
      assert s.records[i] == Actual(s.data[s.owner[i]]) && EngineInv(s.isMicAllowed, s.data[s.owner[i]]);
    }
  }

  lemma EnginesLeftAlone(s: State, ev: Event)
    requires ev.RequestStart? || ev.RequestStop? || ev.RequestPause?
    ensures Step(s, ev).data == s.data && Step(s, ev).owner == s.owner && Step(s, ev).records == s.records
    ensures Step(s, ev).isMicAllowed == s.isMicAllowed
  {
  }

  lemma StreamsLeftAlone(s: State, ev: Event)
    requires ev.CreateEngine? || ev.GetRecordInterface? || ev.SetRecordState?
    ensures Step(s, ev).streams == s.streams && Step(s, ev).tracked == s.tracked
    ensures Step(s, ev).isMicAllowed == s.isMicAllowed
  {
  }

  // ----- whole runs

  ghost function Run(evs: seq<Event>): State {
    if evs == [] then INITIAL else Step(Run(evs[..|evs| - 1]), evs[|evs| - 1])
  }

  ghost predicate AdmissibleRun(evs: seq<Event>) {
    evs == [] || (AdmissibleRun(evs[..|evs| - 1]) && Admissible(Run(evs[..|evs| - 1]), evs[|evs| - 1]))
  }

  lemma {:induction false} PrefixIsAdmissible(evs: seq<Event>, k: nat)
    requires AdmissibleRun(evs) && k <= |evs|
    ensures AdmissibleRun(evs[..k])
  {
    if k == |evs| {
      assert evs[..k] == evs;
    } else {
      PrefixIsAdmissible(evs[..|evs| - 1], k);
      assert evs[..|evs| - 1][..k] == evs[..k];
    }
  }

  ghost predicate LegalRun(evs: seq<Event>) {
    evs == [] || (LegalRun(evs[..|evs| - 1]) && Legal(Run(evs[..|evs| - 1]), evs[|evs| - 1]))
  }

  /** The switch, from the events alone. */
  ghost function MicAllowed(evs: seq<Event>): bool {
    if evs == [] then true
    else
      match evs[|evs| - 1]
      case UpdateMicAccess(allowed) => allowed
      case _ => MicAllowed(evs[..|evs| - 1])
  }

  /** The last state that the app was allowed to set, from the events alone. */
  ghost function LastSet(evs: seq<Event>, itf: RecordItf): nat {
    if evs == [] then SL_RECORDSTATE_STOPPED
    else
      var before := evs[..|evs| - 1];
      match evs[|evs| - 1]
      case SetRecordState(i, state) => if i == itf && MicAllowed(before) then state else LastSet(before, itf)
      case _ => LastSet(before, itf)
  }

  /** The last thing that the app was allowed to ask of a stream; None before it asks. */
  ghost function LastAsked(evs: seq<Event>, stream: Stream): Option<StreamState> {
    if evs == [] then None
    else
      var before := evs[..|evs| - 1];
      match evs[|evs| - 1]
      case RequestStart(x) => if x == stream && MicAllowed(before) then Some(Started) else LastAsked(before, stream)
      case RequestStop(x) => if x == stream then Some(Stopped) else LastAsked(before, stream)
      case RequestPause(x) => if x == stream then Some(Paused) else LastAsked(before, stream)
      case _ => LastAsked(before, stream)
  }

  lemma {:induction false} AdmissibleRunsKeepGeneral(evs: seq<Event>)
    requires AdmissibleRun(evs)
    ensures General(Run(evs)) && Run(evs).isMicAllowed == MicAllowed(evs)
  {
    if evs != [] {
      AdmissibleRunsKeepGeneral(evs[..|evs| - 1]);
      StepKeepsGeneral(Run(evs[..|evs| - 1]), evs[|evs| - 1]);
    }
  }

  lemma {:induction false} LegalRunsKeepOneEach(evs: seq<Event>)
    requires LegalRun(evs)
    ensures AdmissibleRun(evs) && OneEach(Run(evs))
  {
    if evs != [] {
      LegalRunsKeepOneEach(evs[..|evs| - 1]);
      AdmissibleRunsKeepGeneral(evs[..|evs| - 1]);
      StepKeepsOneEach(Run(evs[..|evs| - 1]), evs[|evs| - 1]);
    }
  }

  // ----- the veto

  /** No recorder records. */
  ghost predicate Silent(s: State) {
    forall i :: i in s.records ==> s.records[i] != SL_RECORDSTATE_RECORDING
  }

  /** Whenever the microphone is not allowed, no stream runs, and where engines have one record interface each no
      recorder records. */
  lemma VetoSilencesEverything(evs: seq<Event>)
    requires AdmissibleRun(evs) && !MicAllowed(evs)
    ensures forall x :: x in Run(evs).streams ==> Run(evs).streams[x] != Started
    ensures LegalRun(evs) ==> Silent(Run(evs))
  {
    AdmissibleRunsKeepGeneral(evs);
    if LegalRun(evs) {
      LegalRunsKeepOneEach(evs);
      forall i | i in Run(evs).records
        ensures Run(evs).records[i] != SL_RECORDSTATE_RECORDING
      {
        assert i in Run(evs).owner && EngineInv(false, Run(evs).data[Run(evs).owner[i]]);
      }
    }
  }

  /** The veto gets hold of recorder `i`: its engine remembers it, is set to record, and is not blocked yet. */
  ghost predicate Reached(s: State, i: RecordItf) {
    i in s.owner && s.owner[i] in s.data
    && s.data[s.owner[i]] == OpenSlesData(Some(i), SL_RECORDSTATE_RECORDING, false)
  }

  /** When the veto comes, a recorder goes on exactly if it recorded and the veto does not get hold of it. */
  lemma VetoMissesIff(s: State, i: RecordItf)
    requires i in s.records
    ensures var t := Step(s, UpdateMicAccess(false));
      i in t.records
      && (t.records[i] == SL_RECORDSTATE_RECORDING <==> s.records[i] == SL_RECORDSTATE_RECORDING && !Reached(s, i))
  {
  }

  /** The interface that was obtained last from an engine, from the events alone. */
  ghost function LastObtained(evs: seq<Event>, e: Engine): Option<RecordItf> {
    if evs == [] then None
    else
      match evs[|evs| - 1]
      case GetRecordInterface(engine, itf) => if engine == e then Some(itf) else LastObtained(evs[..|evs| - 1], e)
      case _ => LastObtained(evs[..|evs| - 1], e)
  }

  /** The engine from which an interface was obtained. */
  ghost function EngineOf(evs: seq<Event>, itf: RecordItf): Option<Engine> {
    if evs == [] then None
    else
      match evs[|evs| - 1]
      case GetRecordInterface(e, i) => if i == itf then Some(e) else EngineOf(evs[..|evs| - 1], itf)
      case _ => EngineOf(evs[..|evs| - 1], itf)
  }

  /** The state that the app was last allowed to set through any interface of an engine; 0 before it did. */
  ghost function LastSetOn(evs: seq<Event>, e: Engine): nat {
    if evs == [] then 0
    else
      var before := evs[..|evs| - 1];
      match evs[|evs| - 1]
      case SetRecordState(i, state) =>
        if EngineOf(before, i) == Some(e) && MicAllowed(before) then state else LastSetOn(before, e)
      case _ => LastSetOn(before, e)
  }

  lemma {:induction false} OwnerFollowsEvents(evs: seq<Event>, itf: RecordItf)
    ensures EngineOf(evs, itf) == if itf in Run(evs).owner then Some(Run(evs).owner[itf]) else None
    ensures Run(evs).isMicAllowed == MicAllowed(evs)
  {
    if evs != [] {
      var before, ev := evs[..|evs| - 1], evs[|evs| - 1];
      OwnerFollowsEvents(before, itf);
      if ev.RequestStart? || ev.RequestStop? || ev.RequestPause? {
        EnginesLeftAlone(Run(before), ev);
      }
    }
  }

  lemma {:induction false} EngineFollowsEvents(evs: seq<Event>, e: Engine)
    requires AdmissibleRun(evs)
    ensures DataOf(Run(evs), e).recordItf == LastObtained(evs, e)
    ensures DataOf(Run(evs), e).recordState == LastSetOn(evs, e)
  {
    if evs != [] {
      var before, ev := evs[..|evs| - 1], evs[|evs| - 1];
      EngineFollowsEvents(before, e);
      if ev.RequestStart? || ev.RequestStop? || ev.RequestPause? {
        EnginesLeftAlone(Run(before), ev);
      } else if ev.UpdateMicAccess? {
        SavedLeftAlone(Run(before), ev.allowed);
      } else if ev.SetRecordState? {
        OwnerFollowsEvents(before, ev.itf);
      }
    }
  }

  lemma SavedLeftAlone(s: State, allowed: bool)
    ensures var t := Step(s, UpdateMicAccess(allowed));
      && t.owner == s.owner && t.data.Keys == s.data.Keys
      && forall e :: e in s.data ==>
           t.data[e].recordState == s.data[e].recordState && t.data[e].recordItf == s.data[e].recordItf
  {
  }

  /** The recorder is the one that was obtained last from its engine, and RECORDING is the state last set there. */
  ghost predicate IsRemembered(evs: seq<Event>, i: RecordItf) {
    var e := EngineOf(evs, i);
    e.Some? && LastObtained(evs, e.value) == Some(i) && LastSetOn(evs, e.value) == SL_RECORDSTATE_RECORDING
  }

  /** What the platform does with a recorder, from the events alone: the app sets its state where it is allowed to, and
      a change of the switch pauses or resumes it where its engine remembers it as recording. */
  ghost function RecorderAfter(evs: seq<Event>, itf: RecordItf): nat {
    if evs == [] then SL_RECORDSTATE_STOPPED
    else
      var before := evs[..|evs| - 1];
      match evs[|evs| - 1]
      case GetRecordInterface(_, i) => if i == itf then SL_RECORDSTATE_STOPPED else RecorderAfter(before, itf)
      case SetRecordState(i, state) => if i == itf && MicAllowed(before) then state else RecorderAfter(before, itf)
      case UpdateMicAccess(allowed) =>
        if allowed != MicAllowed(before) && IsRemembered(before, itf)
        then (if allowed then SL_RECORDSTATE_RECORDING else SL_RECORDSTATE_PAUSED)
        else RecorderAfter(before, itf)
      case _ => RecorderAfter(before, itf)
  }

  /** How an event other than a change of the switch changes a recorder. */
  lemma RecorderStep(s: State, ev: Event, itf: RecordItf)
    requires s.records.Keys == s.owner.Keys && !ev.UpdateMicAccess?
    ensures var t := Step(s, ev);
      && (itf in t.owner <==> itf in s.owner || (ev.GetRecordInterface? && ev.itf == itf))
      && (itf in t.owner ==> itf in t.records)
      && (itf in t.owner ==>
            t.records[itf] == if ev.GetRecordInterface? && ev.itf == itf then SL_RECORDSTATE_STOPPED
                              else if ev.SetRecordState? && ev.itf == itf && s.isMicAllowed then ev.state
                              else s.records[itf])
  {
    if ev.RequestStart? || ev.RequestStop? || ev.RequestPause? {
      EnginesLeftAlone(s, ev);
    }
  }

  /** With any number of record interfaces, each recorder does what the events say. */
  lemma {:induction false} RecorderFollowsEvents(evs: seq<Event>, itf: RecordItf)
    requires AdmissibleRun(evs) && itf in Run(evs).owner
    ensures itf in Run(evs).records && Run(evs).records[itf] == RecorderAfter(evs, itf)
  {
    var before, ev := evs[..|evs| - 1], evs[|evs| - 1];
    AdmissibleRunsKeepGeneral(before);
    if ev.UpdateMicAccess? {
      SavedLeftAlone(Run(before), ev.allowed);
      RecorderFollowsEvents(before, itf);
      RecorderTold(before, itf, ev.allowed);
    } else {
      RecorderStep(Run(before), ev, itf);
      if itf in Run(before).owner {
        RecorderFollowsEvents(before, itf);
      }
    }
  }

  lemma RecorderTold(evs: seq<Event>, itf: RecordItf, allowed: bool)
    requires AdmissibleRun(evs) && itf in Run(evs).owner
    ensures var t := Step(Run(evs), UpdateMicAccess(allowed));
      itf in Run(evs).records && itf in t.records &&
      t.records[itf] ==
        if allowed != MicAllowed(evs) && IsRemembered(evs, itf)
        then (if allowed then SL_RECORDSTATE_RECORDING else SL_RECORDSTATE_PAUSED)
        else Run(evs).records[itf]
  {
    var s := Run(evs);
    AdmissibleRunsKeepGeneral(evs);
    OwnerFollowsEvents(evs, itf);
    EngineFollowsEvents(evs, s.owner[itf]);
    assert EngineInv(s.isMicAllowed, s.data[s.owner[itf]]);
  }

  /** An interface that has not been obtained has not been used. */
  lemma {:induction false} UnusedBefore(evs: seq<Event>, itf: RecordItf)
    requires AdmissibleRun(evs) && itf !in Run(evs).owner
    ensures LastSet(evs, itf) == SL_RECORDSTATE_STOPPED
  {
    if evs != [] {
      UnusedBefore(evs[..|evs| - 1], itf);
    }
  }

  /** As long as the switch is not touched, every recorder is in the state that the app has set through it last. */
  lemma {:induction false} RecordersUntilTheSwitch(evs: seq<Event>, itf: RecordItf)
    requires AdmissibleRun(evs) && itf in Run(evs).owner
    requires forall k :: 0 <= k < |evs| ==> !evs[k].UpdateMicAccess?
    ensures itf in Run(evs).records && Run(evs).records[itf] == LastSet(evs, itf)
  {
    var before, ev := evs[..|evs| - 1], evs[|evs| - 1];
    AdmissibleRunsKeepGeneral(before);
    RecorderStep(Run(before), ev, itf);
    if itf in Run(before).owner {
      RecordersUntilTheSwitch(before, itf);
    } else {
      UnusedBefore(before, itf);
    }
  }

  /** A state that the app sets reaches the recorder through which it is set, and no other. */
  lemma SetsOneRecorder(evs: seq<Event>, itf: RecordItf, state: nat)
    requires AdmissibleRun(evs) && itf in Run(evs).owner
    ensures var t := Step(Run(evs), Event.SetRecordState(itf, state));
      t.records == if MicAllowed(evs) then Run(evs).records[itf := state] else Run(evs).records
  {
    AdmissibleRunsKeepGeneral(evs);
  }

  /** The run up to where the present veto came. */
  ghost function BeforeVeto(evs: seq<Event>): seq<Event>
    requires !MicAllowed(evs)
  {
    var before := evs[..|evs| - 1];
    if MicAllowed(before) then before else BeforeVeto(before)
  }

  /** With any number of record interfaces, nothing records under a veto if and only if every recorder that recorded
      when it came was the one that its engine remembered, and RECORDING was the state that it remembered. */
  lemma {:induction false} VetoSilencesIff(evs: seq<Event>)
    requires AdmissibleRun(evs) && !MicAllowed(evs)
    ensures var s := Run(BeforeVeto(evs));
      Silent(Run(evs)) <==>
      forall i :: i in s.records && s.records[i] == SL_RECORDSTATE_RECORDING ==> IsRemembered(BeforeVeto(evs), i)
  {
    var before, ev := evs[..|evs| - 1], evs[|evs| - 1];
    assert Run(evs) == Step(Run(before), ev);
    if MicAllowed(before) {
      assert ev == UpdateMicAccess(false) && BeforeVeto(evs) == before;
      SilencedIff(before);
    } else {
      VetoSilencesIff(before);
      AdmissibleRunsKeepGeneral(before);
      SilenceLasts(Run(before), ev);
      assert BeforeVeto(evs) == BeforeVeto(before);
    }
  }

  lemma SilencedIff(evs: seq<Event>)
    requires AdmissibleRun(evs) && MicAllowed(evs)
    ensures Silent(Step(Run(evs), UpdateMicAccess(false))) <==>
      forall i :: i in Run(evs).records && Run(evs).records[i] == SL_RECORDSTATE_RECORDING ==> IsRemembered(evs, i)
  {
    var s, t := Run(evs), Step(Run(evs), UpdateMicAccess(false));
    AdmissibleRunsKeepGeneral(evs);
    forall i | i in s.records
      ensures i in t.records && (Reached(s, i) <==> IsRemembered(evs, i))
      ensures t.records[i] == SL_RECORDSTATE_RECORDING <==> s.records[i] == SL_RECORDSTATE_RECORDING && !Reached(s, i)
    {
      VetoMissesIff(s, i);
      OwnerFollowsEvents(evs, i);
      EngineFollowsEvents(evs, s.owner[i]);
    }
  }

  /** Under the veto nothing starts to record, and nothing that records stops. */
  lemma SilenceLasts(s: State, ev: Event)
    requires General(s) && !s.isMicAllowed && Admissible(s, ev) && ev != UpdateMicAccess(true)
    ensures Silent(Step(s, ev)) <==> Silent(s)
  {
    var t := Step(s, ev);
    forall i | i in s.records
      ensures i in t.records && t.records[i] == s.records[i]
    {
      assert s.owner[i] in s.data && EngineInv(false, s.data[s.owner[i]]);
    }
    assert forall i :: i in t.records ==> i in s.records || t.records[i] == SL_RECORDSTATE_STOPPED;
  }

  /** What the platform does with a recorder follows from the events: it is in the last state that the app was allowed
      to set, but paused instead of recording while the microphone is not allowed. So lifting the veto restores it. */
  lemma {:induction false} RecorderFollowsTheApp(evs: seq<Event>, itf: RecordItf)
    requires LegalRun(evs) && itf in Run(evs).owner
    ensures itf in Run(evs).records
    ensures Run(evs).records[itf] ==
      if !MicAllowed(evs) && LastSet(evs, itf) == SL_RECORDSTATE_RECORDING then SL_RECORDSTATE_PAUSED
      else LastSet(evs, itf)
  {
    LegalRunsKeepOneEach(evs);
    AdmissibleRunsKeepGeneral(evs);
    SavedIsLastSet(evs, itf);
  }

  /** How an event changes what is saved for the only recorder of an engine. */
  lemma SavedStep(s: State, ev: Event, itf: RecordItf)
    requires General(s) && OneEach(s) && Legal(s, ev) && itf in Step(s, ev).owner
    ensures var t := Step(s, ev);
      && ((ev.GetRecordInterface? && ev.itf == itf) || itf in s.owner)
      && t.owner[itf] in t.data
      && t.data[t.owner[itf]].recordState ==
           if ev.SetRecordState? && ev.itf == itf && s.isMicAllowed then ev.state
           else if itf in s.owner then s.data[s.owner[itf]].recordState else 0
  {
    if ev.RequestStart? || ev.RequestStop? || ev.RequestPause? {
      EnginesLeftAlone(s, ev);
    } else if ev.UpdateMicAccess? {
      SavedLeftAlone(s, ev.allowed);
    } else if ev.SetRecordState? {
      assert s.data[s.owner[ev.itf]].recordItf == Some(ev.itf);
    }
  }

  lemma {:induction false} SavedIsLastSet(evs: seq<Event>, itf: RecordItf)
    requires LegalRun(evs) && itf in Run(evs).owner
    ensures var s := Run(evs);
      s.owner[itf] in s.data &&
      var saved := s.data[s.owner[itf]].recordState;
      LastSet(evs, itf) == if saved == 0 then SL_RECORDSTATE_STOPPED else saved
  {
    var before, ev := evs[..|evs| - 1], evs[|evs| - 1];
    LegalRunsKeepOneEach(before);
    AdmissibleRunsKeepGeneral(before);
    SavedStep(Run(before), ev, itf);
    if itf in Run(before).owner {
      SavedIsLastSet(before, itf);
    } else {
      UnusedBefore(before, itf);
    }
  }

  /** A stream that is tracked was started, and perhaps paused, last. */
  lemma {:induction false} TrackedByRequests(evs: seq<Event>, stream: Stream)
    ensures stream in Run(evs).tracked ==> LastAsked(evs, stream) in {Some(Started), Some(Paused)}
    ensures LastAsked(evs, stream) == Some(Started) ==> stream in Run(evs).tracked
    ensures Run(evs).isMicAllowed == MicAllowed(evs)
  {
    if evs != [] {
      var before, ev := evs[..|evs| - 1], evs[|evs| - 1];
      TrackedByRequests(before, stream);
      if ev.CreateEngine? || ev.GetRecordInterface? || ev.SetRecordState? {
        StreamsLeftAlone(Run(before), ev);
      }
    }
  }

  /** The stream was started, and not stopped since. */
  ghost predicate TrackedAfter(evs: seq<Event>, stream: Stream) {
    evs != [] &&
    var before := evs[..|evs| - 1];
    match evs[|evs| - 1]
    case RequestStart(x) => (x == stream && MicAllowed(before)) || TrackedAfter(before, stream)
    case RequestStop(x) => x != stream && TrackedAfter(before, stream)
    case _ => TrackedAfter(before, stream)
  }

  /** What the platform does with a stream, from the events alone. */
  ghost function StreamAfter(evs: seq<Event>, stream: Stream): Option<StreamState> {
    if evs == [] then None
    else
      var before := evs[..|evs| - 1];
      match evs[|evs| - 1]
      case RequestStart(x) => if x == stream && MicAllowed(before) then Some(Started) else StreamAfter(before, stream)
      case RequestStop(x) => if x == stream then Some(Stopped) else StreamAfter(before, stream)
      case RequestPause(x) => if x == stream then Some(Paused) else StreamAfter(before, stream)
      case UpdateMicAccess(allowed) =>
        if TrackedAfter(before, stream) then Some(if allowed then Started else Paused) else StreamAfter(before, stream)
      case _ => StreamAfter(before, stream)
  }

  /** Each stream does what the events say. */
  lemma {:induction false} StreamFollowsEvents(evs: seq<Event>, stream: Stream)
    ensures stream in Run(evs).tracked <==> TrackedAfter(evs, stream)
    ensures StreamAfter(evs, stream)
            == if stream in Run(evs).streams then Some(Run(evs).streams[stream]) else None
    ensures Run(evs).isMicAllowed == MicAllowed(evs)
  {
    if evs != [] {
      var before, ev := evs[..|evs| - 1], evs[|evs| - 1];
      StreamFollowsEvents(before, stream);
      StreamStep(Run(before), ev, stream);
      StreamTold(Run(before), stream);
    }
  }

  lemma StreamTold(s: State, x: Stream)
    ensures forall allowed {:trigger Step(s, UpdateMicAccess(allowed))} ::
      var t := Step(s, UpdateMicAccess(allowed));
      (x in t.streams <==> x in s.streams || x in s.tracked)
      && (x in s.tracked ==> t.streams[x] == if allowed then Started else Paused)
  {
  }

  /** Unlike a recorder, a stream need not be in the state that the app asked for when the veto is lifted. It is, just
      where the app has not paused it since it started it: tracked streams that are paused are started. */
  lemma LiftRestoresStreamIff(evs: seq<Event>, stream: Stream)
    requires LastAsked(evs, stream).Some?
    ensures var after := Run(evs + [UpdateMicAccess(true)]);
      stream in after.streams &&
      (Some(after.streams[stream]) == LastAsked(evs, stream)
       <==> !(stream in Run(evs).tracked && LastAsked(evs, stream) == Some(Paused)))
  {
    assert (evs + [UpdateMicAccess(true)])[..|evs|] == evs;
    TrackedByRequests(evs, stream);
    UntrackedAsAsked(evs, stream);
  }

  /** How an event changes a stream. */
  lemma StreamStep(s: State, ev: Event, x: Stream)
    ensures var t := Step(s, ev);
      && (x in t.tracked <==> if ev == RequestStop(x) then false
                              else (ev == RequestStart(x) && s.isMicAllowed) || x in s.tracked)
      && (ev == RequestStart(x) && s.isMicAllowed ==> t.streams[x] == Started)
      && (ev == RequestStop(x) ==> x in t.streams && t.streams[x] == Stopped)
      && (ev == RequestPause(x) ==> x in t.streams && t.streams[x] == Paused)
      && (x in s.streams ==> x in t.streams)
      && (x in t.streams ==>
            x in s.streams || x in s.tracked || ev in {RequestStart(x), RequestStop(x), RequestPause(x)})
      && (ev == RequestStart(x) && !s.isMicAllowed ==> t == s)
      && (!ev.UpdateMicAccess? && ev !in {RequestStart(x), RequestStop(x), RequestPause(x)} ==>
            (x in t.streams <==> x in s.streams) && (x in s.streams ==> t.streams[x] == s.streams[x]))
      && (x in s.streams && x !in s.tracked && ev !in {RequestStart(x), RequestStop(x), RequestPause(x)} ==>
            t.streams[x] == s.streams[x])
  {
    if ev.CreateEngine? || ev.GetRecordInterface? || ev.SetRecordState? {
      StreamsLeftAlone(s, ev);
    }
  }

  lemma {:induction false} UntrackedAsAsked(evs: seq<Event>, stream: Stream)
    requires LastAsked(evs, stream).Some?
    ensures stream in Run(evs).streams
    ensures stream !in Run(evs).tracked ==> Some(Run(evs).streams[stream]) == LastAsked(evs, stream)
  {
    var before, ev := evs[..|evs| - 1], evs[|evs| - 1];
    if LastAsked(before, stream).Some? {
      UntrackedAsAsked(before, stream);
    }
    TrackedByRequests(before, stream);
    StreamStep(Run(before), ev, stream);
  }

  /** The app pauses a stream; a veto that comes and goes starts it again. */
  lemma LiftStartsAPausedStream()
    ensures var evs := [RequestStart(7), RequestPause(7), UpdateMicAccess(false)];
      && LegalRun(evs) && LastAsked(evs, 7) == Some(Paused)
      && 7 in Run(evs + [UpdateMicAccess(true)]).streams
      && Run(evs + [UpdateMicAccess(true)]).streams[7] == Started
  {
    var one, two := [RequestStart(7)], [RequestStart(7), RequestPause(7)];
    var evs := two + [UpdateMicAccess(false)];
    assert one[..0] == [] && two[..1] == one && evs[..2] == two && (evs + [UpdateMicAccess(true)])[..3] == evs;
    assert evs == [RequestStart(7), RequestPause(7), UpdateMicAccess(false)];
    assert LegalRun([]);
    assert LegalRun(one) && LegalRun(two);
    assert Run(one).tracked == {7} && Run(two).tracked == {7} && Run(evs).tracked == {7};
  }

  /** A second record interface of one engine takes the place of the first, which then escapes the veto. */
  lemma SecondInterfaceEscapes()
    ensures var evs := [GetRecordInterface(1, 10), Event.SetRecordState(10, SL_RECORDSTATE_RECORDING),
                        GetRecordInterface(1, 11), UpdateMicAccess(false)];
      10 in Run(evs).records && Run(evs).records[10] == SL_RECORDSTATE_RECORDING
  {
    var one := [GetRecordInterface(1, 10)];
    var two := one + [Event.SetRecordState(10, SL_RECORDSTATE_RECORDING)];
    var three := two + [GetRecordInterface(1, 11)];
    var evs := three + [UpdateMicAccess(false)];
    assert evs == [GetRecordInterface(1, 10), Event.SetRecordState(10, SL_RECORDSTATE_RECORDING),
                   GetRecordInterface(1, 11), UpdateMicAccess(false)];
    assert one[..0] == [] && two[..1] == one && three[..2] == two && evs[..3] == three;
    assert Run(one).owner == map[10 := 1] && Run(two).owner == map[10 := 1];
    assert Run(two).records == map[10 := 3];
    var s := Run(three);
    assert s.records[10] == 3 && s.owner[10] == 1 && s.data[1].recordItf == Some(11);
  }
}
