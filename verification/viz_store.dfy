/** The shared visualisation store (src/state/vizStore.js): a selected disease
    and a lock flag, with listeners that are called once per transition.
    Listeners are identified by numbers; `calls` counts how often each one has
    been called. */
module VizStore {
  import opened Wrappers

  datatype VizState = VizState(disease: Option<string>, locked: bool)

  datatype Store = Store(state: VizState, listeners: set<nat>, calls: map<nat, nat>)

  /** The transitions the store exports. */
  datatype Action = FromStreamgraph(d: Option<string>) | Manual(d: Option<string>) | Unlock

  /** How many times listener `id` has been called so far. */
  function Calls(s: Store, id: nat): nat {
    if id in s.calls then s.calls[id] else 0
  }

  /** The state at module load: no disease, unlocked, nobody listening. */
  function Init(): (s: Store)
    ensures s.state.disease.None? && !s.state.locked
    ensures s.listeners == {}
    ensures forall id: nat :: Calls(s, id) == 0
  {
    Store(VizState(None, false), {}, map[])
  }

  /** Calls every registered listener once. */
  function Emit(s: Store): (r: Store)
    ensures r.state == s.state && r.listeners == s.listeners
    ensures forall id: nat :: Calls(r, id) == Calls(s, id) + (if id in s.listeners then 1 else 0)
  {
    var calls' := map id | id in s.calls.Keys + s.listeners :: Calls(s, id) + (if id in s.listeners then 1 else 0);
    Store(s.state, s.listeners, calls')
  }

  /** The new state a transition writes, before listeners are told. */
  function Apply(st: VizState, a: Action): (r: VizState)
    ensures a.FromStreamgraph? ==> r.disease == a.d && r.locked
    ensures a.Manual? ==> r.disease == a.d && r.locked == st.locked
    ensures a.Unlock? ==> r.disease == st.disease && !r.locked
  {
    match a
    case FromStreamgraph(d) => VizState(d, true)
    case Manual(d) => VizState(d, st.locked)
    case Unlock => VizState(st.disease, false)
  }

  /** A transition: write the state, then emit. */
  function Dispatch(s: Store, a: Action): (r: Store)
    ensures r.state == Apply(s.state, a)
    ensures r.listeners == s.listeners
    ensures forall id: nat :: id in s.listeners ==> Calls(r, id) == Calls(s, id) + 1
    ensures forall id: nat :: id !in s.listeners ==> Calls(r, id) == Calls(s, id)
  {
    Emit(Store(Apply(s.state, a), s.listeners, s.calls))
  }

  function SetDiseaseFromStreamgraph(s: Store, d: Option<string>): (r: Store)
    ensures r.state == VizState(d, true)
    ensures forall id: nat :: id in s.listeners ==> Calls(r, id) == Calls(s, id) + 1
  {
    Dispatch(s, FromStreamgraph(d))
  }

  function SetDiseaseManual(s: Store, d: Option<string>): (r: Store)
    ensures r.state == VizState(d, s.state.locked)
    ensures forall id: nat :: id in s.listeners ==> Calls(r, id) == Calls(s, id) + 1
  {
    Dispatch(s, Manual(d))
  }

  function UnlockDiseaseSelector(s: Store): (r: Store)
    ensures r.state == VizState(s.state.disease, false)
    ensures forall id: nat :: id in s.listeners ==> Calls(r, id) == Calls(s, id) + 1
  {
    Dispatch(s, Unlock)
  }

  /** The subscribe half of the external-store hook: registering a listener
      twice keeps one registration, as a JavaScript Set does. */
  function Subscribe(s: Store, id: nat): (r: Store)
    ensures r.listeners == s.listeners + {id}
    ensures r.state == s.state && r.calls == s.calls
  {
    Store(s.state, s.listeners + {id}, s.calls)
  }

  /** The cleanup returned by subscribe. */
  function Unsubscribe(s: Store, id: nat): (r: Store)
    ensures r.listeners == s.listeners - {id}
    ensures r.state == s.state && r.calls == s.calls
  {
    Store(s.state, s.listeners - {id}, s.calls)
  }

  /** Subscribing and then cleaning up leaves the listener set as it was,
      for a listener that was not already registered. */
  lemma SubscribeUnsubscribe(s: Store, id: nat)
    requires id !in s.listeners
    ensures Unsubscribe(Subscribe(s, id), id) == s
  {
  }

  /** An unsubscribed listener is never called again. */
  lemma UnsubscribedIsSilent(s: Store, id: nat, acts: seq<Action>)
    requires id !in s.listeners
    ensures Calls(Run(s, acts), id) == Calls(s, id)
    ensures Run(s, acts).listeners == s.listeners
    decreases |acts|
  {
    if acts != [] {
      UnsubscribedIsSilent(Dispatch(s, acts[0]), id, acts[1..]);
    }
  }

  /** A sequence of transitions, in order. */
  function Run(s: Store, acts: seq<Action>): Store
    decreases |acts|
  {
    if acts == [] then s else Run(Dispatch(s, acts[0]), acts[1..])
  }

  /** With a fixed listener set, every registered listener is called exactly
      once per transition. */
  lemma {:induction false} CallsPerTransition(s: Store, acts: seq<Action>, id: nat)
    requires id in s.listeners
    ensures Calls(Run(s, acts), id) == Calls(s, id) + |acts|
    ensures Run(s, acts).listeners == s.listeners
    decreases |acts|
  {
    if acts != [] {
      CallsPerTransition(Dispatch(s, acts[0]), acts[1..], id);
    }
  }

  predicate SetsDisease(a: Action) { a.FromStreamgraph? || a.Manual? }

  /** The lock is set exactly when some streamgraph selection happened and no
      unlock came after it (or the lock was already set and no unlock came at all). */
  lemma {:induction false} LockedIffStreamgraphSinceUnlock(s: Store, acts: seq<Action>)
    ensures Run(s, acts).state.locked <==>
      (exists i :: 0 <= i < |acts| && acts[i].FromStreamgraph? && forall j :: i < j < |acts| ==> !acts[j].Unlock?)
      || (s.state.locked && forall j :: 0 <= j < |acts| ==> !acts[j].Unlock?)
    decreases |acts|
  {
    if acts != [] {
      var s1 := Dispatch(s, acts[0]);
      var rest := acts[1..];
      LockedIffStreamgraphSinceUnlock(s1, rest);
      var A := exists i :: 0 <= i < |acts| && acts[i].FromStreamgraph? && forall j :: i < j < |acts| ==> !acts[j].Unlock?;
      var A1 := exists i :: 0 <= i < |rest| && rest[i].FromStreamgraph? && forall j :: i < j < |rest| ==> !rest[j].Unlock?;
      var N := forall j :: 0 <= j < |acts| ==> !acts[j].Unlock?;
      var N1 := forall j :: 0 <= j < |rest| ==> !rest[j].Unlock?;
      assert N <==> !acts[0].Unlock? && N1 by {
        if !acts[0].Unlock? && N1 {
          forall j | 0 <= j < |acts| ensures !acts[j].Unlock? {
            if j > 0 { assert acts[j] == rest[j - 1]; }
          }
        }
      }
      assert A <==> A1 || (acts[0].FromStreamgraph? && N1) by {
        if A1 {
          var i :| 0 <= i < |rest| && rest[i].FromStreamgraph? && forall j :: i < j < |rest| ==> !rest[j].Unlock?;
          assert acts[i + 1] == rest[i];
          forall j | i + 1 < j < |acts| ensures !acts[j].Unlock? { assert acts[j] == rest[j - 1]; }
        }
        if acts[0].FromStreamgraph? && N1 {
          forall j | 0 < j < |acts| ensures !acts[j].Unlock? { assert acts[j] == rest[j - 1]; }
        }
        if A {
          var i :| 0 <= i < |acts| && acts[i].FromStreamgraph? && forall j :: i < j < |acts| ==> !acts[j].Unlock?;
          if i > 0 {
            assert rest[i - 1] == acts[i];
            forall j | i - 1 < j < |rest| ensures !rest[j].Unlock? { assert rest[j] == acts[j + 1]; }
          } else {
            forall j | 0 <= j < |rest| ensures !rest[j].Unlock? { assert rest[j] == acts[j + 1]; }
          }
        }
      }
    }
  }

  /** The disease is the one written by the last disease-setting transition,
      or the starting disease when there was none. */
  function LastDisease(start: Option<string>, acts: seq<Action>): Option<string>
    decreases |acts|
  {
    if acts == [] then start
    else if SetsDisease(acts[|acts| - 1]) then acts[|acts| - 1].d
    else LastDisease(start, acts[..|acts| - 1])
  }

  lemma {:induction false} RunSnoc(s: Store, acts: seq<Action>, a: Action)
    ensures Run(s, acts + [a]) == Dispatch(Run(s, acts), a)
    decreases |acts|
  {
    if acts == [] {
      assert acts + [a] == [a];
    } else {
      assert (acts + [a])[1..] == acts[1..] + [a];
      RunSnoc(Dispatch(s, acts[0]), acts[1..], a);
    }
  }

  lemma {:induction false} DiseaseIsLastWritten(s: Store, acts: seq<Action>)
    ensures Run(s, acts).state.disease == LastDisease(s.state.disease, acts)
    decreases |acts|
  {
    if acts != [] {
      var init := acts[..|acts| - 1];
      assert acts == init + [acts[|acts| - 1]];
      RunSnoc(s, init, acts[|acts| - 1]);
      DiseaseIsLastWritten(s, init);
    }
  }
}
