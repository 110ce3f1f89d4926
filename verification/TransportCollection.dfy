/** JsepTransportCollection: who owns a transport, who refers to it, and what a rollback restores. */
module TransportCollection {
  import opened Wrappers

  /** The identity of a JsepTransport: what two pointers to it compare. */
  datatype Transport = Transport(address: nat)

  /** The three maps of the collection. */
  datatype State = State(
    active: map<string, Transport>,
    stable: map<string, Transport>,
    owned: map<string, Transport>)

  datatype Event =
    | MapChange(mid: string, transport: Option<Transport>, accepted: bool)
    | StateChange
    | Destroyed(owner: Transport)

  /* ---- invariants ---- */

  ghost predicate Referenced(s: State, t: Transport) {
    t in s.active.Values || t in s.stable.Values
  }

  /** What IsConsistent checks: nothing is owned that no map mentions. */
  ghost predicate Consistent(s: State) {
    forall n :: n in s.owned ==> Referenced(s, s.owned[n])
  }

  /** unique_ptr ownership: a transport has one owning entry. */
  ghost predicate Exclusive(s: State) {
    forall n, m :: n in s.owned && m in s.owned && s.owned[n] == s.owned[m] ==> n == m
  }

  /** No map mentions a destroyed transport. */
  ghost predicate Owning(s: State) {
    forall t :: Referenced(s, t) ==> t in s.owned.Values
  }

  ghost predicate Valid(s: State) {
    Consistent(s) && Exclusive(s) && Owning(s)
  }

  /* ---- specification of the operations: change the references, then collect garbage ---- */

  ghost function Collect(s: State): State {
    s.(owned := map n | n in s.owned && Referenced(s, s.owned[n]) :: s.owned[n])
  }

  ghost function SetStep(s: State, mid: string, t: Transport): State {
    Collect(s.(active := s.active[mid := t]))
  }

  ghost function RegisterStep(s: State, mid: string, t: Transport): State {
    var s' := SetStep(s, mid, t);
    s'.(owned := s'.owned[mid := t])
  }

  ghost function RemoveStep(s: State, mid: string): State {
    Collect(s.(active := s.active - {mid}))
  }

  ghost function RollbackStep(s: State): State {
    Collect(s.(active := s.stable))
  }

  ghost function CommitStep(s: State): State {
    Collect(s.(stable := s.active))
  }

  /* ---- the listener behind map_change_callback_ ---- */

  ghost function Hear(view: map<string, Transport>, mid: string, transport: Option<Transport>): map<string, Transport> {
    if transport.Some? then view[mid := transport.value] else view - {mid}
  }

  ghost function Heard(log: seq<Event>): map<string, Transport> {
    if log == [] then map[] else
      var before, last := Heard(log[..|log| - 1]), log[|log| - 1];
      if last.MapChange? then Hear(before, last.mid, last.transport) else before
  }

  /** The listener has accepted every change announced from position `from` on. */
  ghost predicate AcceptedSince(log: seq<Event>, from: nat) {
    forall i :: from <= i < |log| && log[i].MapChange? ==> log[i].accepted
  }

  /** From position `from` on the listener is told this change, first, and no other. */
  ghost predicate OnlyAnnounces(log: seq<Event>, from: nat, mid: string, transport: Option<Transport>) {
    && from < |log| && log[from].MapChange? && log[from].mid == mid && log[from].transport == transport
    && NoneAnnounced(log, from + 1)
  }

  ghost predicate NoneAnnounced(log: seq<Event>, from: nat) {
    forall i :: from <= i < |log| ==> !log[i].MapChange?
  }

  ghost predicate SignalledSince(log: seq<Event>, from: nat) {
    exists i :: from <= i < |log| && log[i] == StateChange
  }

  /** No transport dies while the listener still refers to it. */
  ghost predicate NoneDiesHeard(log: seq<Event>) {
    log == [] ||
    var before, last := log[..|log| - 1], log[|log| - 1];
    NoneDiesHeard(before) && (last.Destroyed? ==> last.owner !in Heard(before).Values)
  }

  lemma LogAppend(log: seq<Event>, e: Event)
    ensures Heard(log + [e]) == if e.MapChange? then Hear(Heard(log), e.mid, e.transport) else Heard(log)
    ensures NoneDiesHeard(log + [e]) <==>
              NoneDiesHeard(log) && (e.Destroyed? ==> e.owner !in Heard(log).Values)
  {
    assert (log + [e])[..|log|] == log;
  }

  /** The owner recorded under this name is not needed once `mid` itself has moved on. */
  ghost predicate NameIsFree(s: State, mid: string) {
    mid in s.owned ==>
      && s.owned[mid] !in s.stable.Values
      && forall m :: m in s.active && m != mid ==> s.active[m] != s.owned[mid]
  }

  ghost predicate LeavesActive(before: map<string, Transport>, after: map<string, Transport>) {
    exists t :: t in before.Values && t !in after.Values
  }

  /* ---- single steps of the operations, on values ---- */

  lemma SetSame(s: State, mid: string, t: Transport)
    requires Consistent(s) && mid in s.active && s.active[mid] == t
    ensures SetStep(s, mid, t) == s
  {
    assert s.active[mid := t] == s.active;
  }

  lemma SetNew(s: State, mid: string, t: Transport)
    requires Consistent(s) && mid !in s.active
    ensures SetStep(s, mid, t) == s.(active := s.active[mid := t])
    ensures forall u :: u in s.active.Values ==> u in s.active[mid := t].Values
  {
    var active := s.active[mid := t];
    forall u | u in s.active.Values ensures u in active.Values {
      var m :| m in s.active && s.active[m] == u;
      assert active[m] == u;
    }
  }

  /** A changed or removed mapping can orphan only the transport it named. */
  lemma OnlyTheOldLeaves(s: State, mid: string, active: map<string, Transport>)
    requires mid in s.active
    requires forall m :: m in s.active && m != mid ==> m in active && active[m] == s.active[m]
    ensures forall u :: u in s.active.Values && u != s.active[mid] ==> u in active.Values
    ensures Consistent(s) ==>
              forall n :: n in s.owned && s.owned[n] != s.active[mid] ==> Referenced(s.(active := active), s.owned[n])
  {
    forall u | u in s.active.Values && u != s.active[mid] ensures u in active.Values {
      var m :| m in s.active && s.active[m] == u;
      assert active[m] == u;
    }
  }

  lemma FreeNameIsCollected(s: State, mid: string, t: Transport)
    requires t !in s.owned.Values && NameIsFree(s, mid)
    ensures mid !in SetStep(s, mid, t).owned
  {
  }

  lemma RegisterIsConsistent(s: State, mid: string, t: Transport)
    ensures Consistent(SetStep(s, mid, t)) && Consistent(RegisterStep(s, mid, t))
    ensures var owned, s' := s.owned[mid := t], RegisterStep(s, mid, t);
      s'.owned == map n | n in owned && (owned[n] in s'.active.Values || owned[n] in s'.stable.Values) :: owned[n]
  {
    assert SetStep(s, mid, t).active[mid] == t;
  }

  lemma CollectIsConsistent(s: State)
    ensures Consistent(Collect(s))
  {
  }

  /** Collection under way: the owners called `names` are still to be looked at. */
  ghost function Swept(s: State, names: set<string>): State {
    s.(owned := map n | n in s.owned && (n in names || Referenced(s, s.owned[n])) :: s.owned[n])
  }

  lemma SweepOne(s: State, names: set<string>, n: string)
    requires n in names && n in s.owned
    ensures Swept(s, names - {n}) ==
              if Referenced(s, s.owned[n]) then Swept(s, names)
              else Swept(s, names).(owned := Swept(s, names).owned - {n})
  {
  }

  lemma SweepEnds(s: State)
    ensures Swept(s, s.owned.Keys) == s && Swept(s, {}) == Collect(s)
  {
  }

  /** What the listener knows while the mids other than `keys` have been checked for removal. */
  ghost function Removing(active: map<string, Transport>, stable: map<string, Transport>, keys: set<string>)
    : map<string, Transport>
  {
    active - ((active.Keys - keys) - stable.Keys)
  }

  lemma RemoveOne(active: map<string, Transport>, stable: map<string, Transport>, keys: set<string>, k: string)
    requires k in keys && k in active
    ensures Removing(active, stable, keys - {k}) ==
              if k in stable then Removing(active, stable, keys) else Removing(active, stable, keys) - {k}
  {
  }

  /** What it knows while the stable mappings other than `keys` have been restored. */
  ghost function Restoring(active: map<string, Transport>, stable: map<string, Transport>, keys: set<string>)
    : map<string, Transport>
  {
    Removing(active, stable, {}) + (stable - keys)
  }

  lemma RestoreOne(active: map<string, Transport>, stable: map<string, Transport>, keys: set<string>, k: string)
    requires k in keys && k in stable
    ensures Restoring(active, stable, keys - {k}) ==
              if k !in active || active[k] != stable[k] then Hear(Restoring(active, stable, keys), k, Some(stable[k]))
              else Restoring(active, stable, keys)
  {
  }

  lemma AnnouncementsEnd(active: map<string, Transport>, stable: map<string, Transport>)
    ensures Removing(active, stable, active.Keys) == active
    ensures Restoring(active, stable, stable.Keys) == Removing(active, stable, {})
    ensures Restoring(active, stable, {}) == stable
  {
  }

  class JsepTransportCollection {
    var midToTransport: map<string, Transport>
    var stableMidToTransport: map<string, Transport>
    var transportsByName: map<string, Transport>
    /** Every call made on the two callbacks, in order. */
    ghost var log: seq<Event>

    ghost function View(): State
      reads this
    {
      State(midToTransport, stableMidToTransport, transportsByName)
    }

    /** Of the owners there were, exactly those are left whose transport some mid has, now or in the stable map. */
    ghost predicate OwnersLeftOf(before: map<string, Transport>)
      reads this
    {
      transportsByName ==
      map n | n in before && (before[n] in midToTransport.Values || before[n] in stableMidToTransport.Values) :: before[n]
    }

    ghost predicate InSync()
      reads this
    {
      Heard(log) == midToTransport && NoneDiesHeard(log)
    }

    constructor ()
      ensures View() == State(map[], map[], map[]) && log == []
      ensures Valid(View()) && InSync()
    {
      midToTransport, stableMidToTransport, transportsByName := map[], map[], map[];
      log := [];
    }

    /** The listener may answer anything. */
    method MapChangeCallback(mid: string, transport: Option<Transport>) returns (accepted: bool)
      modifies this`log
      ensures log == old(log) + [MapChange(mid, transport, accepted)]
      ensures forall from: nat :: from <= |old(log)| ==>
                (AcceptedSince(log, from) <==> AcceptedSince(old(log), from) && accepted)
      ensures Heard(log) == Hear(Heard(old(log)), mid, transport)
      ensures old(NoneDiesHeard(log)) ==> NoneDiesHeard(log)
    {
      accepted := *;
      LogAppend(log, MapChange(mid, transport, accepted));
      log := log + [MapChange(mid, transport, accepted)];
      assert log[|log| - 1] == MapChange(mid, transport, accepted);
    }

    method StateChangeCallback()
      modifies this`log
      ensures log == old(log) + [StateChange]
      ensures Heard(log) == Heard(old(log))
      ensures old(NoneDiesHeard(log)) ==> NoneDiesHeard(log)
    {
      LogAppend(log, StateChange);
      log := log + [StateChange];
    }

    /** Erasing an entry of the owner map runs the destructor of the transport it held. */
    method EraseOwner(name: string)
      requires name in transportsByName
      modifies this`transportsByName, this`log
      ensures transportsByName == old(transportsByName) - {name}
      ensures log == old(log) + [Destroyed(old(transportsByName)[name])]
      ensures Heard(log) == Heard(old(log))
      ensures NoneDiesHeard(log) <==>
                old(NoneDiesHeard(log)) && old(transportsByName)[name] !in Heard(old(log)).Values
    {
      LogAppend(log, Destroyed(transportsByName[name]));
      log := log + [Destroyed(transportsByName[name])];
      transportsByName := transportsByName - {name};
    }

    method TransportInUse(transport: Transport) returns (found: bool)
      ensures found <==> transport in midToTransport.Values
    {
      found := AnyMaps(midToTransport, transport);
    }

    method TransportNeededForRollback(transport: Transport) returns (found: bool)
      ensures found <==> transport in stableMidToTransport.Values
    {
      found := AnyMaps(stableMidToTransport, transport);
    }

    method IsConsistent() returns (ok: bool)
      ensures ok <==> Consistent(View())
    {
      var names := transportsByName.Keys;
      while names != {}
        invariant names <= transportsByName.Keys
        invariant forall n :: n in transportsByName.Keys - names ==> Referenced(View(), transportsByName[n])
      {
        var n :| n in names;
        var used := TransportInUse(transportsByName[n]);
        var needed := TransportNeededForRollback(transportsByName[n]);
        if !used && !needed {
          return false;
        }
        names := names - {n};
      }
      return true;
    }

    method MaybeDestroyJsepTransport(transport: Transport)
      requires Exclusive(View())
      requires forall n :: n in transportsByName && transportsByName[n] != transport ==>
                 Referenced(View(), transportsByName[n])
      modifies this
      ensures View() == Collect(old(View()))
      ensures log == old(log) + if transport !in midToTransport.Values &&
                                  transport in stableMidToTransport.Values then [StateChange]
                                else if transport !in midToTransport.Values &&
                                  transport in old(transportsByName).Values then [Destroyed(transport), StateChange]
                                else []
      ensures Heard(log) == Heard(old(log))
      ensures old(InSync()) ==> InSync()
    {
      var used := TransportInUse(transport);
      if used {
        return;
      }
      var needed := TransportNeededForRollback(transport);
      if needed {
        StateChangeCallback();
        return;
      }
      var names := transportsByName.Keys;
      while names != {}
        invariant names <= transportsByName.Keys
        invariant transportsByName == old(transportsByName) && View() == old(View()) && log == old(log)
        invariant forall n :: n in transportsByName.Keys - names ==> transportsByName[n] != transport
      {
        var n :| n in names;
        if transportsByName[n] == transport {
          EraseOwner(n);
          StateChangeCallback();
          break;
        }
        names := names - {n};
      }
    }

    method DestroyUnusedTransports()
      modifies this
      ensures View() == Collect(old(View()))
      ensures old(log) <= log && AcceptedSince(log, |old(log)|)
      ensures transportsByName != old(transportsByName) ==> SignalledSince(log, |old(log)|)
      ensures Heard(log) == Heard(old(log))
      ensures old(InSync()) ==> InSync()
    {
      var changed := false;
      var names := transportsByName.Keys;
      SweepEnds(View());
      while names != {}
        invariant names <= transportsByName.Keys
        invariant View() == Swept(old(View()), names)
        invariant old(log) <= log && AcceptedSince(log, |old(log)|) && Heard(log) == Heard(old(log))
        invariant old(InSync()) ==> InSync()
        invariant !changed ==> transportsByName == old(transportsByName)
      {
        var n :| n in names;
        var used := TransportInUse(transportsByName[n]);
        var needed := TransportNeededForRollback(transportsByName[n]);
        SweepOne(old(View()), names, n);
        names := names - {n};
        if !used && !needed {
          EraseOwner(n);
          changed := true;
        }
      }
      if changed {
        StateChangeCallback();
        assert log[|log| - 1] == StateChange;
      }
    }

    method SetTransportForMid(mid: string, transport: Transport) returns (ok: bool)
      requires Consistent(View()) && Exclusive(View())
      modifies this
      ensures View() == SetStep(old(View()), mid, transport)
      ensures midToTransport == old(midToTransport)[mid := transport]
      ensures stableMidToTransport == old(stableMidToTransport) && OwnersLeftOf(old(transportsByName))
      ensures if mid in old(midToTransport) && old(midToTransport)[mid] == transport then log == old(log)
              else OnlyAnnounces(log, |old(log)|, mid, Some(transport))
      ensures old(log) <= log && (ok <==> AcceptedSince(log, |old(log)|))
      ensures old(InSync()) ==> InSync()
      ensures Owning(old(View())) && LeavesActive(old(midToTransport), midToTransport) ==>
                SignalledSince(log, |old(log)|)
    {
      ghost var before := View();
      if mid in midToTransport && midToTransport[mid] == transport {
        SetSame(before, mid, transport);
        return true;
      }
      ok := MapChangeCallback(mid, Some(transport));
      assert log[|old(log)|] == MapChange(mid, Some(transport), ok);
      if mid !in midToTransport {
        SetNew(before, mid, transport);
        midToTransport := midToTransport[mid := transport];
      } else {
        var oldTransport := midToTransport[mid];
        OnlyTheOldLeaves(before, mid, midToTransport[mid := transport]);
        midToTransport := midToTransport[mid := transport];
        DropMapping(oldTransport, before);
      }
    }

    /** The tail of both mapping changes: the transport that lost a mapping may have to go. */
    method DropMapping(oldTransport: Transport, ghost before: State)
      requires Exclusive(View())
      requires forall n :: n in transportsByName && transportsByName[n] != oldTransport ==>
                 Referenced(View(), transportsByName[n])
      requires before.owned == transportsByName && before.stable == stableMidToTransport
      requires oldTransport in before.active.Values
      requires forall u :: u in before.active.Values && u != oldTransport ==> u in midToTransport.Values
      modifies this
      ensures View() == Collect(old(View()))
      ensures old(log) <= log && AcceptedSince(log, |old(log)|) && NoneAnnounced(log, |old(log)|)
      ensures old(InSync()) ==> InSync()
      ensures Owning(before) && LeavesActive(before.active, midToTransport) ==> SignalledSince(log, |old(log)|)
    {
      MaybeDestroyJsepTransport(oldTransport);
      if Owning(before) && LeavesActive(before.active, midToTransport) {
        assert Referenced(before, oldTransport);
        assert log[|log| - 1] == StateChange;
      }
    }

    /** The unique_ptr argument: the collection does not own this transport yet. */
    method RegisterTransport(mid: string, transport: Transport)
      requires Consistent(View()) && Exclusive(View())
      requires transport !in transportsByName.Values
      modifies this
      ensures View() == RegisterStep(old(View()), mid, transport) && Consistent(View())
      ensures midToTransport == old(midToTransport)[mid := transport]
      ensures stableMidToTransport == old(stableMidToTransport) && OwnersLeftOf(old(transportsByName)[mid := transport])
      ensures old(log) <= log
      ensures old(InSync()) ==> Heard(log) == midToTransport
      ensures old(InSync()) && NameIsFree(old(View()), mid) ==> InSync()
    {
      ghost var before := View();
      RegisterIsConsistent(before, mid, transport);
      if NameIsFree(before, mid) {
        FreeNameIsCollected(before, mid, transport);
      }
      var _ := SetTransportForMid(mid, transport);
      TakeOwnership(mid, transport);
    }

    /** Assigning to an entry of the owner map destroys the transport it held. */
    method TakeOwnership(name: string, transport: Transport)
      modifies this`transportsByName, this`log
      ensures transportsByName == old(transportsByName)[name := transport]
      ensures old(log) <= log && Heard(log) == Heard(old(log))
      ensures name !in old(transportsByName) ==> log == old(log)
    {
      ghost var owned := transportsByName;
      if name in transportsByName {
        EraseOwner(name);
      }
      transportsByName := transportsByName[name := transport];
      assert transportsByName == owned[name := transport];
    }

    method RemoveTransportForMid(mid: string)
      requires Consistent(View()) && Exclusive(View())
      modifies this
      ensures View() == RemoveStep(old(View()), mid) && Consistent(View())
      ensures midToTransport == old(midToTransport) - {mid}
      ensures stableMidToTransport == old(stableMidToTransport) && OwnersLeftOf(old(transportsByName))
      ensures old(log) <= log && OnlyAnnounces(log, |old(log)|, mid, None)
      ensures old(InSync()) ==> InSync()
      ensures Owning(old(View())) && LeavesActive(old(midToTransport), midToTransport) ==>
                SignalledSince(log, |old(log)|)
    {
      CollectIsConsistent(View().(active := midToTransport - {mid}));
      var _ := MapChangeCallback(mid, None);
      EraseMapping(mid);
    }

    /** What RemoveTransportForMid does after the listener has been told. */
    method EraseMapping(mid: string)
      requires Consistent(View()) && Exclusive(View())
      modifies this
      ensures View() == RemoveStep(old(View()), mid)
      ensures old(log) <= log && NoneAnnounced(log, |old(log)|)
      ensures old(Heard(log) == midToTransport - {mid} && NoneDiesHeard(log)) ==> InSync()
      ensures Owning(old(View())) && LeavesActive(old(midToTransport), midToTransport) ==>
                SignalledSince(log, |old(log)|)
    {
      ghost var before := View();
      if mid in midToTransport {
        var oldTransport := midToTransport[mid];
        OnlyTheOldLeaves(before, mid, midToTransport - {mid});
        midToTransport := midToTransport - {mid};
        DropMapping(oldTransport, before);
      } else {
        assert midToTransport - {mid} == midToTransport;
      }
    }

    /** First loop of RollbackTransports: mids the stable map does not know. */
    method AnnounceRemovals() returns (ok: bool)
      modifies this`log
      ensures old(log) <= log && (ok <==> AcceptedSince(log, |old(log)|))
      ensures old(NoneDiesHeard(log)) ==> NoneDiesHeard(log)
      ensures ok && old(Heard(log)) == midToTransport ==>
                Heard(log) == Removing(midToTransport, stableMidToTransport, {})
    {
      ok := true;
      ghost var calm, inStep := NoneDiesHeard(log), Heard(log) == midToTransport;
      AnnouncementsEnd(midToTransport, stableMidToTransport);
      var keys := midToTransport.Keys;
      while keys != {}
        invariant keys <= midToTransport.Keys && old(log) <= log
        invariant ok <==> AcceptedSince(log, |old(log)|)
        invariant calm ==> NoneDiesHeard(log)
        invariant ok && inStep ==> Heard(log) == Removing(midToTransport, stableMidToTransport, keys)
      {
        var k :| k in keys;
        RemoveOne(midToTransport, stableMidToTransport, keys, k);
        if k !in stableMidToTransport && ok {
          ok := MapChangeCallback(k, None);
        }
        keys := keys - {k};
      }
    }

    /** Second loop of RollbackTransports: mids whose stable transport differs. */
    method AnnounceRestores(acceptedSoFar: bool) returns (ok: bool)
      modifies this`log
      ensures old(log) <= log && (ok <==> acceptedSoFar && AcceptedSince(log, |old(log)|))
      ensures old(NoneDiesHeard(log)) ==> NoneDiesHeard(log)
      ensures ok && old(Heard(log)) == Removing(midToTransport, stableMidToTransport, {}) ==>
                Heard(log) == stableMidToTransport
    {
      ok := acceptedSoFar;
      ghost var calm, inStep := NoneDiesHeard(log), Heard(log) == Removing(midToTransport, stableMidToTransport, {});
      AnnouncementsEnd(midToTransport, stableMidToTransport);
      var keys := stableMidToTransport.Keys;
      while keys != {}
        invariant keys <= stableMidToTransport.Keys && old(log) <= log
        invariant ok <==> acceptedSoFar && AcceptedSince(log, |old(log)|)
        invariant calm ==> NoneDiesHeard(log)
        invariant ok && inStep ==> Heard(log) == Restoring(midToTransport, stableMidToTransport, keys)
      {
        var k :| k in keys;
        RestoreOne(midToTransport, stableMidToTransport, keys, k);
        if (k !in midToTransport || midToTransport[k] != stableMidToTransport[k]) && ok {
          ok := MapChangeCallback(k, Some(stableMidToTransport[k]));
        }
        keys := keys - {k};
      }
    }

    method RollbackTransports() returns (ok: bool)
      modifies this
      ensures View() == RollbackStep(old(View())) && Consistent(View())
      ensures midToTransport == stableMidToTransport == old(stableMidToTransport) && OwnersLeftOf(old(transportsByName))
      ensures old(log) <= log && (ok <==> AcceptedSince(log, |old(log)|))
      ensures ok && old(InSync()) ==> InSync()
      ensures SignalledSince(log, |old(log)|)
    {
      ghost var before := View();
      CollectIsConsistent(before.(active := before.stable));
      ok := AnnounceRemovals();
      ok := AnnounceRestores(ok);
      midToTransport := stableMidToTransport;
      StateChangeCallback();
      ghost var signal := |log| - 1;
      assert log[signal] == StateChange;
      DestroyUnusedTransports();
      assert log[signal] == StateChange;
    }

    /** The listener is told about the owner names alone: a mid that shares the transport of another name
        goes on referring to it, and it is destroyed under the listener. */
    method DestroyAllTransports()
      modifies this
      ensures View() == DestroyAllStep(old(View())) && Consistent(View())
      ensures Heard(log) == Heard(old(log)) - old(transportsByName).Keys
      ensures old(InSync() && Valid(View())) ==>
                (NoneDiesHeard(log) <==> old(midToTransport).Keys <= old(transportsByName).Keys)
    {
      ghost var before := View();
      ghost var left := Heard(log) - transportsByName.Keys;
      var names := transportsByName.Keys;
      while names != {}
        invariant names <= transportsByName.Keys && View() == before
        invariant Heard(log) == Heard(old(log)) - (transportsByName.Keys - names)
        invariant old(NoneDiesHeard(log)) ==> NoneDiesHeard(log)
      {
        var n :| n in names;
        var _ := MapChangeCallback(n, None);
        names := names - {n};
      }
      ghost var calm := NoneDiesHeard(log);
      names := transportsByName.Keys;
      while names != {}
        invariant View() == before.(owned := before.owned - (before.owned.Keys - names)) && names <= before.owned.Keys
        invariant Heard(log) == left
        invariant NoneDiesHeard(log) <==> calm && NoneOfOwned(before.owned, before.owned.Keys - names, left)
      {
        var n :| n in names;
        NoneOfOneMore(before.owned, before.owned.Keys - names, n, left);
        EraseOwner(n);
        names := names - {n};
      }
      if old(InSync() && Valid(View())) {
        BundledMidsStay(before);
      }
    }

    method CommitTransports()
      modifies this
      ensures View() == CommitStep(old(View())) && Consistent(View())
      ensures stableMidToTransport == midToTransport == old(midToTransport) && OwnersLeftOf(old(transportsByName))
      ensures old(InSync()) ==> InSync()
    {
      stableMidToTransport := midToTransport;
      DestroyUnusedTransports();
      assert Consistent(View());
    }
  }

  /** None of the transports owned under `names` is still mapped in `view`. */
  ghost predicate NoneOfOwned(owned: map<string, Transport>, names: set<string>, view: map<string, Transport>) {
    forall n :: n in names && n in owned ==> owned[n] !in view.Values
  }

  lemma NoneOfOneMore(owned: map<string, Transport>, names: set<string>, n: string, view: map<string, Transport>)
    requires n in owned
    ensures NoneOfOwned(owned, names + {n}, view) <==> NoneOfOwned(owned, names, view) && owned[n] !in view.Values
  {
  }

  /** What is left of the map without the owner names refers to owned transports, if anything is left. */
  lemma BundledMidsStay(s: State)
    requires Valid(s)
    ensures NoneOfOwned(s.owned, s.owned.Keys, s.active - s.owned.Keys) <==> s.active.Keys <= s.owned.Keys
  {
    var left := s.active - s.owned.Keys;
    if m :| m in s.active && m !in s.owned {
      assert left[m] == s.active[m] && Referenced(s, s.active[m]);
      var n :| n in s.owned && s.owned[n] == s.active[m];
      assert s.owned[n] in left.Values;
    }
  }

  /** Clears the owner map only, after telling the listener about every owner name. */
  ghost function DestroyAllStep(s: State): State {
    s.(owned := map[])
  }

  /** The DCHECK after DestroyAllTransports holds, yet any mapping that is left dangles. */
  lemma DestroyAllDangles(s: State)
    ensures Consistent(DestroyAllStep(s))
    ensures Owning(DestroyAllStep(s)) <==> s.active == map[] && s.stable == map[]
  {
    if m :| m in s.active {
      assert Referenced(DestroyAllStep(s), s.active[m]);
    } else if m :| m in s.stable {
      assert Referenced(DestroyAllStep(s), s.stable[m]);
    }
  }

  method AnyMaps(m: map<string, Transport>, transport: Transport) returns (found: bool)
    ensures found <==> transport in m.Values
  {
    var keys := m.Keys;
    while keys != {}
      invariant keys <= m.Keys
      invariant forall k :: k in m.Keys - keys ==> m[k] != transport
    {
      var k :| k in keys;
      if m[k] == transport {
        return true;
      }
      keys := keys - {k};
    }
    return false;
  }

  /* ---- runs ---- */

  datatype Op =
    | Register(mid: string, transport: Transport)
    | Set(mid: string, transport: Transport)
    | Remove(mid: string)
    | Rollback
    | Commit

  ghost function Step(s: State, op: Op): State {
    match op
    case Register(mid, t) => RegisterStep(s, mid, t)
    case Set(mid, t) => SetStep(s, mid, t)
    case Remove(mid) => RemoveStep(s, mid)
    case Rollback => RollbackStep(s)
    case Commit => CommitStep(s)
  }

  /** What a caller owes: a new transport when registering, an owned one when mapping. */
  ghost predicate Enabled(s: State, op: Op) {
    match op
    case Register(mid, t) => t !in s.owned.Values && NameIsFree(s, mid)
    case Set(_, t) => t in s.owned.Values
    case _ => true
  }

  ghost function Run(s: State, ops: seq<Op>): State
    decreases |ops|
  {
    if ops == [] then s else Run(Step(s, ops[0]), ops[1..])
  }

  ghost predicate EnabledRun(s: State, ops: seq<Op>)
    decreases |ops|
  {
    ops == [] || (Enabled(s, ops[0]) && EnabledRun(Step(s, ops[0]), ops[1..]))
  }

  /** Two mids on one transport, registered under the first: after that the owner names lack the second mid, so
      destroying all transports takes the transport away from under the listener and out of the maps. */
  lemma BundledMidOutlivesItsTransport(t: Transport)
    ensures var start := State(map[], map[], map[]);
            var ops := [Register("a", t), Set("b", t)];
      && Valid(start) && EnabledRun(start, ops) && Valid(Run(start, ops))
      && !(Run(start, ops).active.Keys <= Run(start, ops).owned.Keys)
      && !Owning(DestroyAllStep(Run(start, ops)))
  {
    var start := State(map[], map[], map[]);
    var one := RegisterStep(start, "a", t);
    var two := SetStep(one, "b", t);
    assert one.owned == map["a" := t] && one.active == map["a" := t];
    assert one.owned["a"] == t && one.active["a"] == t;
    assert Referenced(two, t) && two.active["b"] == t;
    assert two.owned == map["a" := t];
    RunOfTwo(start, Register("a", t), Set("b", t));
    RunKeepsValid(start, [Register("a", t), Set("b", t)]);
    DestroyAllDangles(two);
  }

  lemma RunOfTwo(s: State, first: Op, second: Op)
    ensures Run(s, [first, second]) == Step(Step(s, first), second)
    ensures EnabledRun(s, [first, second]) <==> Enabled(s, first) && Enabled(Step(s, first), second)
  {
    assert [first, second][1..] == [second] && [second][1..] == [];
    assert Run(Step(s, first), [second]) == Step(Step(s, first), second);
    assert EnabledRun(Step(s, first), [second]) <==> Enabled(Step(s, first), second);
  }

  lemma CollectIsValid(s: State)
    requires Exclusive(s) && Owning(s)
    ensures Valid(Collect(s))
  {
    var c := Collect(s);
    forall t | Referenced(c, t) ensures t in c.owned.Values {
      assert Referenced(s, t);
      var n :| n in s.owned && s.owned[n] == t;
      assert c.owned[n] == t;
    }
  }

  lemma ActiveMember(s: State, mid: string, t: Transport)
    ensures forall u :: u in s.active[mid := t].Values ==> u == t || u in s.active.Values
    ensures t in s.active[mid := t].Values
    ensures forall u :: u in (s.active - {mid}).Values ==> u in s.active.Values
  {
    assert s.active[mid := t][mid] == t;
  }

  /** Registering keeps every reference owned exactly when the name it overwrites is free. */
  lemma RegisterKeepsOwnership(s: State, mid: string, t: Transport)
    requires Valid(s) && t !in s.owned.Values
    ensures Valid(RegisterStep(s, mid, t)) <==> NameIsFree(s, mid)
  {
    var s1 := SetStep(s, mid, t);
    var s2 := RegisterStep(s, mid, t);
    ActiveMember(s, mid, t);
    assert s2.active[mid] == t && s2.owned[mid] == t;
    if NameIsFree(s, mid) {
      assert mid !in s1.owned;
      forall u | Referenced(s2, u) ensures u in s2.owned.Values {
        if u != t {
          assert Referenced(s, u);
          var n :| n in s.owned && s.owned[n] == u;
          assert n in s1.owned && s2.owned[n] == u;
        }
      }
    } else {
      var o := s.owned[mid];
      if o !in s.stable.Values {
        var m :| m in s.active && m != mid && s.active[m] == o;
        assert s2.active[m] == o;
      }
      assert Referenced(s2, o);
      assert forall n :: n in s2.owned && n != mid ==> s2.owned[n] != o;
    }
  }

  /** Two registrations under one name, with a commit between them, leave the stable map dangling. */
  lemma RegisterOverNeededNameDangles(a: Transport, b: Transport)
    requires a != b
    ensures var start := State(map[], map[], map[]);
            var ops := [Register("audio", a), Commit];
      && Valid(start) && EnabledRun(start, ops) && Valid(Run(start, ops))
      && b !in Run(start, ops).owned.Values && !Valid(RegisterStep(Run(start, ops), "audio", b))
  {
    var start := State(map[], map[], map[]);
    var one := RegisterStep(start, "audio", a);
    assert one.owned == map["audio" := a] && one.active == map["audio" := a];
    assert one.active["audio"] == a;
    var two := CommitStep(one);
    assert two.owned == map["audio" := a] && two.stable["audio"] == a;
    RunOfTwo(start, Register("audio", a), Commit);
    RunKeepsValid(start, [Register("audio", a), Commit]);
    RegisterKeepsOwnership(two, "audio", b);
  }

  lemma StepKeepsValid(s: State, op: Op)
    requires Valid(s) && Enabled(s, op)
    ensures Valid(Step(s, op))
  {
    match op
    case Register(mid, t) => RegisterKeepsOwnership(s, mid, t);
    case Set(mid, t) =>
      ActiveMember(s, mid, t);
      CollectIsValid(s.(active := s.active[mid := t]));
    case Remove(mid) =>
      ActiveMember(s, mid, Transport(0));
      CollectIsValid(s.(active := s.active - {mid}));
    case Rollback => CollectIsValid(s.(active := s.stable));
    case Commit => CollectIsValid(s.(stable := s.active));
  }

  /** Ownership and references agree in every reachable state. */
  lemma {:induction false} RunKeepsValid(s: State, ops: seq<Op>)
    requires Valid(s) && EnabledRun(s, ops)
    ensures Valid(Run(s, ops))
    decreases |ops|
  {
    if ops != [] {
      StepKeepsValid(s, ops[0]);
      RunKeepsValid(Step(s, ops[0]), ops[1..]);
    }
  }

  /** A commit leaves exactly the active transports owned. */
  lemma CommitOwnsExactlyActive(s: State)
    requires Valid(s)
    ensures CommitStep(s).owned.Values == s.active.Values
    ensures CommitStep(s).stable == CommitStep(s).active == s.active
  {
    var c := CommitStep(s);
    forall t | t in s.active.Values ensures t in c.owned.Values {
      assert Referenced(s, t);
      var n :| n in s.owned && s.owned[n] == t;
      assert c.owned[n] == t;
    }
  }

  /** What an uncommitted run cannot touch. */
  ghost predicate Preserves(c: State, s: State) {
    && s.stable == c.stable
    && forall n :: n in c.owned ==> n in s.owned && s.owned[n] == c.owned[n]
  }

  lemma StepPreserves(c: State, s: State, op: Op)
    requires Valid(c) && c.stable == c.active
    requires Valid(s) && Enabled(s, op) && op != Commit && Preserves(c, s)
    ensures Preserves(c, Step(s, op))
  {
    forall n | n in c.owned ensures n in Step(s, op).owned && Step(s, op).owned[n] == c.owned[n] {
      assert Referenced(c, c.owned[n]);
      assert c.owned[n] in s.stable.Values;
    }
  }

  /** A rollback undoes every uncommitted run, owners included: nothing is lost and nothing is kept. */
  lemma {:induction false} RollbackUndoesRun(c: State, s: State, ops: seq<Op>)
    requires Valid(c) && c.stable == c.active
    requires Valid(s) && Preserves(c, s)
    requires EnabledRun(s, ops) && Commit !in ops
    ensures RollbackStep(Run(s, ops)) == c
    decreases |ops|
  {
    if ops == [] {
      var r := RollbackStep(s);
      forall n | n in r.owned ensures n in c.owned {
        assert Referenced(c, r.owned[n]);
        var m :| m in c.owned && c.owned[m] == r.owned[n];
        assert s.owned[m] == s.owned[n];
      }
      forall n | n in c.owned ensures n in r.owned && r.owned[n] == c.owned[n] {
        assert Referenced(c, c.owned[n]);
      }
      assert r.owned == c.owned;
    } else {
      StepKeepsValid(s, ops[0]);
      StepPreserves(c, s, ops[0]);
      RollbackUndoesRun(c, Step(s, ops[0]), ops[1..]);
    }
  }

  lemma RollbackRestoresCommit(s: State, ops: seq<Op>)
    requires Valid(s)
    requires EnabledRun(CommitStep(s), ops) && Commit !in ops
    ensures RollbackStep(Run(CommitStep(s), ops)) == CommitStep(s)
  {
    StepKeepsValid(s, Commit);
    RollbackUndoesRun(CommitStep(s), CommitStep(s), ops);
  }
}
