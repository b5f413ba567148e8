/** Cooperative handover of a Service: bindings, buffers and events composed, and what every run of
    requests keeps whatever the effects answer. */
module Handover {
  import opened Options
  import opened Capabilities
  import opened KernelEffects
  import opened ServiceBindings
  import opened SessionBuffers
  import opened SessionEvents
  import opened HandoverSafety
  import opened HandoverRequests

  /** A mapping is at page `k` of a span of its process. */
  ghost predicate InSpan(m: Mapped, span: Span, k: int) {
    m.owner == span.owner && 0 <= k < span.pages && m.address == span.address + k * PAGE
  }

  class Alpha {
    const bindings: Bindings
    const buffers: Buffers
    const events: Events
    const kernel: Kernel
    var poisoned: seq<bool>
    var endpoints: seq<bool>
    var wakeSlots: seq<Option<nat>>
    ghost var holders: seq<nat>

    ghost function Snapshot(): World
      reads this, bindings, buffers, events, kernel
    {
      World(bindings.providers, bindings.services, bindings.sessions, buffers.entries, events.services, events.clients,
            poisoned, holders, kernel.mapped, kernel.receivers, kernel.eventHolders)
    }

    ghost predicate Valid()
      reads this, bindings, buffers, events, kernel
    {
      bindings.Valid() && buffers.Valid(kernel) && events.Valid() && |endpoints| == |wakeSlots| == SERVICES
      && Safe(Snapshot())
    }

    /** What one request, or a whole run, can never undo. */
    twostate predicate Progress()
      reads bindings, buffers
    {
      && AllAdvance(old(bindings.services), bindings.services) && NamesGrow(old(bindings.names), bindings.names)
      && BackingKept(old(buffers.entries), buffers.entries)
    }

    constructor ()
      ensures Valid() && bindings.services == [] && bindings.names == map[]
      ensures fresh(bindings) && fresh(buffers) && fresh(events) && fresh(kernel)
    {
      bindings := new Bindings();
      buffers := new Buffers();
      events := new Events();
      kernel := new Kernel();
      poisoned, endpoints, holders := seq(SERVICES, _ => false), seq(SERVICES, _ => false), [];
      wakeSlots := seq(SERVICES, _ => None);
    }

    // ---- requests that only change the tables ----

    method HandleRegister(caller: nat, interface: nat, raw: nat, notification: nat, profile: nat)
      returns (r: Outcome<nat>)
      requires Valid()
      modifies bindings, kernel
      ensures Valid() && Progress()
      ensures r.Value? ==>
                && ProviderSlots(profile, raw, notification).Some? && 1 <= r.value <= |bindings.providers|
                && var (receiver, event) := ProviderSlots(profile, raw, notification).value;
                   Registers(bindings.providers[r.value - 1], caller, interface, profile, receiver, notification, event)
      ensures RegisterAnswer(old(Snapshot()), Snapshot(), caller, interface, raw, notification, profile, r,
                             kernel.failures > old(kernel.failures))
      ensures OnlyTouches(old(Snapshot()), Snapshot(), 0)
      ensures r.Value? ==> kernel.failures == old(kernel.failures)
    {
      hide Bound, Shared, ServiceOk, BufferOk, ClientOk, FreshOk, Sound;
      ghost var w := Snapshot();
      var known := bindings.ProviderForOwner(caller);
      var prepared := Ok;
      if known.None? {
        prepared := kernel.Attempt();
      }
      r := bindings.Register(caller, interface, raw, notification, profile, prepared);
      assert OwnersKept(w.providers, bindings.providers);
      assert forall j :: 0 <= j < |w.providers| && !w.providers[j].retired ==> Live(w, j + 1);
      TablesKeepSafe(w, Snapshot());
      TablesTouch(w, Snapshot(), 0);
    }

    method HandlePrepare(admin: bool, caller: nat, id: nat, generation: nat, next: nat) returns (r: Status)
      requires Valid()
      modifies bindings
      ensures Valid() && Progress()
      ensures r.Ok? <==> admin && old(bindings.CanPrepare(caller, id, generation, next))
      ensures PrepareAnswer(old(Snapshot()), Snapshot(), admin, caller, id, generation, next, r)
      ensures OnlyTouches(old(Snapshot()), Snapshot(), id)
    {
      hide Bound, Shared, ServiceOk, BufferOk, ClientOk, FreshOk, AllReserved, AllTracked;
      if !admin {
        return Err(PermissionDenied);
      }
      ghost var w := Snapshot();
      assert 1 <= id <= |w.services| ==> ServiceAt(w.providers, w.services, id - 1);
      r := bindings.Prepare(caller, id, generation, next);
      TablesKeepSafe(w, Snapshot());
      TablesTouch(w, Snapshot(), id);
    }

    /** A prepared Service whose manager wakes it at the slot it used before, or at a slot not yet bound. */
    predicate CanQuiesce(admin: bool, caller: nat, id: nat, generation: nat, slot: nat)
      requires |wakeSlots| == SERVICES && |bindings.services| <= SERVICES
      reads this, bindings
    {
      && admin && bindings.Owned(caller, id, generation).Value? && bindings.services[id - 1].state.phase.Prepared?
      && if wakeSlots[id - 1].Some? then wakeSlots[id - 1] == Some(slot) else 23 <= slot < 224
    }

    /** Asks the bound Provider to stop. The manager's wake slot is bound on the first request and stays bound,
        also when the request then fails. */
    method HandleQuiesce(admin: bool, caller: nat, id: nat, generation: nat, slot: nat) returns (r: Status)
      requires Valid()
      modifies `wakeSlots, bindings, kernel
      ensures Valid() && Progress()
      ensures r.Ok? ==> old(CanQuiesce(admin, caller, id, generation, slot)) && wakeSlots[id - 1] == Some(slot)
      ensures old(CanQuiesce(admin, caller, id, generation, slot)) ==> r.Ok? || kernel.failures > old(kernel.failures)
      ensures forall j ::
                0 <= j < SERVICES && (j != id - 1 || old(wakeSlots)[j].Some?) ==> wakeSlots[j] == old(wakeSlots)[j]
      ensures QuiesceAnswer(old(Snapshot()), Snapshot(), admin, caller, id, generation, r)
      ensures OnlyTouches(old(Snapshot()), Snapshot(), id)
      ensures r.Ok? ==> kernel.failures == old(kernel.failures)
    {
      hide Bound, Shared, ServiceOk, BufferOk, ClientOk, FreshOk, Sound, OnlyTouches, EntryAt, PageAt;
      ghost var w := Snapshot();
      TouchesNothing(w, id);
      if !admin {
        return Err(PermissionDenied);
      }
      var service := bindings.FindService(id);
      if service.Error? || service.value.manager != caller || service.value.state.generation != generation
         || !service.value.state.phase.Prepared? {
        return Err(PermissionDenied);
      }
      r := BindWake(id, slot);
      if r.Ok? {
        var signal := kernel.Attempt();
        r := bindings.Quiesce(caller, id, generation, signal);
      }
      PhaseStep(w, Snapshot(), id, Quiescing);
    }

    method BindWake(id: nat, slot: nat) returns (r: Status)
      requires 1 <= id <= SERVICES == |wakeSlots|
      modifies `wakeSlots, kernel`failures
      ensures r.Ok? ==> kernel.failures == old(kernel.failures) && wakeSlots == old(wakeSlots)[id - 1 := Some(slot)]
      ensures r.Ok? ==> if old(wakeSlots)[id - 1].Some? then old(wakeSlots)[id - 1] == Some(slot) else 23 <= slot < 224
      ensures r.Err? ==> wakeSlots == old(wakeSlots)
      ensures r.Err? ==>
                || kernel.failures > old(kernel.failures)
                || if wakeSlots[id - 1].Some? then wakeSlots[id - 1] != Some(slot) else !(23 <= slot < 224)
    {
      if wakeSlots[id - 1].Some? {
        return if wakeSlots[id - 1] == Some(slot) then Ok else Err(InvalidArgument);
      }
      if !(23 <= slot < 224) {
        return Err(InvalidArgument);
      }
      r := kernel.Attempt();
      if r.Ok? {
        wakeSlots := wakeSlots[id - 1 := Some(slot)];
      }
    }

    method HandleConnect(owner: SessionOwner, id: nat, slot: nat) returns (r: Outcome<nat>)
      requires Valid()
      modifies bindings, kernel
      ensures Valid() && Progress()
      ensures r.Value? ==>
                && old(bindings.CanConnect(id)) && r.value == SESSION_IDENTIFIER_BIT + |bindings.sessions|
                && bindings.sessions == old(bindings.sessions) + [Session(owner, slot, id, false)]
      ensures old(bindings.CanConnect(id)) ==> r.Value? || kernel.failures > old(kernel.failures)
      ensures ConnectAnswer(old(Snapshot()), Snapshot(), owner, id, slot, r, kernel.failures > old(kernel.failures))
      ensures OnlyTouches(old(Snapshot()), Snapshot(), id)
      ensures r.Value? ==> kernel.failures == old(kernel.failures)
    {
      hide Bound, Shared, ServiceOk, BufferOk, ClientOk, FreshOk, Sound;
      ghost var w := Snapshot();
      var install := kernel.Attempt();
      r := bindings.Connect(owner, id, slot, install);
      assert SessionsKept(w.sessions, bindings.sessions) by {
        assert forall k :: 0 <= k < |w.sessions| ==> bindings.sessions[..|w.sessions|][k] == w.sessions[k];
      }
      TablesKeepSafe(w, Snapshot());
      TablesTouch(w, Snapshot(), id);
    }

    method HandleRetire(caller: nat, id: nat) returns (r: Status)
      requires Valid()
      modifies bindings, kernel
      ensures Valid() && Progress()
      ensures r.Ok? ==>
                && old(bindings.CanRetire(caller, id))
                && bindings.providers ==
                   old(bindings.providers)[id - 1 := old(bindings.providers)[id - 1].(retired := true)]
      ensures r.Err? ==> bindings.providers == old(bindings.providers)
      ensures old(bindings.CanRetire(caller, id)) ==> r.Ok? || kernel.failures > old(kernel.failures)
      ensures RetireAnswer(old(Snapshot()), Snapshot(), caller, id, r, kernel.failures > old(kernel.failures))
      ensures OnlyTouches(old(Snapshot()), Snapshot(), 0)
      ensures r.Ok? ==> kernel.failures == old(kernel.failures)
    {
      ghost var w := Snapshot();
      var release := kernel.Attempt();
      r := bindings.Retire(caller, id, release);
      TablesKeepSafe(w, Snapshot());
      TablesTouch(w, Snapshot(), 0);
    }

    method Fault(id: nat)
      requires Valid()
      modifies bindings`services
      ensures Valid() && Progress() && bindings.services == old(bindings.Phased(id, Faulted))
    {
      ghost var w := Snapshot();
      bindings.Fault(id);
      TablesKeepSafe(w, Snapshot());
    }

    /** An imported Service is bound elsewhere; no Provider is selectable here. */
    method HandleImport(sessionLimit: nat) returns (r: Outcome<nat>)
      requires Valid()
      modifies bindings, `holders
      ensures Valid() && Progress()
      ensures ImportAnswer(old(Snapshot()), Snapshot(), sessionLimit, r) && OnlyTouches(old(Snapshot()), Snapshot(), 0)
    {
      ghost var w := Snapshot();
      r := bindings.Import(sessionLimit);
      if r.Value? {
        holders := holders + [0];
        ServiceAdded(w, Snapshot());
      }
    }

    // ---- taking a Service away from its Provider ----

    /** `p` is the Provider that service `s` is bound to. */
    ghost predicate IsBound(s: nat, p: Provider)
      reads bindings
    {
      && 1 <= s <= |bindings.services| && !Imported(bindings.services[s - 1])
      && 1 <= bindings.services[s - 1].provider <= |bindings.providers|
      && p == bindings.providers[bindings.services[s - 1].provider - 1] && p.profile == bindings.services[s - 1].profile
    }

    lemma OwnBinding(caller: nat, id: nat)
      requires bindings.Valid() && bindings.ProviderBinding(caller, id).Value?
      ensures 1 <= id <= |bindings.providers|
      ensures var state := bindings.ProviderBinding(caller, id).value;
              IsBound(state.service, bindings.providers[id - 1]) && bindings.services[state.service - 1].state == state
              && bindings.services[state.service - 1].provider == id && bindings.providers[id - 1].owner == caller
    {
      bindings.BindingIsOwn(caller, id);
      assert ServiceAt(bindings.providers, bindings.services, bindings.ProviderBinding(caller, id).value.service - 1);
    }

    /** Takes the work event back. A failure faults the binding. */
    method DropEvent(s: nat, p: Provider) returns (r: Status)
      requires Valid() && IsBound(s, p) && bindings.services[s - 1].state.phase.Quiescing?
      modifies bindings`services, events, kernel
      ensures Valid() && Progress() && kernel.failures >= old(kernel.failures)
      ensures r.Ok? ==> bindings.services == old(bindings.services) && events.services[s - 1].receiver.None?
      ensures r.Err? ==> bindings.services == old(bindings.Phased(s, Faulted)) && kernel.failures > old(kernel.failures)
      ensures OnlyTouches(old(Snapshot()), Snapshot(), s)
      ensures r.Ok? ==> kernel.failures == old(kernel.failures)
    {
      ghost var w := Snapshot();
      assert ServiceOk(w, s - 1);
      r := Ok;
      if p.profile == MANAGED_EVENT_PROFILE {
        r := events.Withdraw(kernel, s, p.owner);
      }
      if r.Err? {
        bindings.Fault(s);
      }
      EventMoved(w, Snapshot(), s);
    }

    /** Takes the Provider's views of the buffers back. A failure faults the binding; since the bound
        Provider holds every open buffer, only a failed unmapping is one. */
    method DropBuffers(s: nat, p: Provider) returns (r: Status)
      requires Valid() && IsBound(s, p) && bindings.services[s - 1].state.phase.Quiescing?
      modifies bindings`services, buffers, kernel
      ensures Valid() && Progress() && kernel.failures >= old(kernel.failures)
      ensures r.Ok? ==> bindings.services == old(bindings.services) && Unseen(buffers.entries, s)
      ensures r.Err? ==> bindings.services == old(bindings.Phased(s, Faulted)) && kernel.failures > old(kernel.failures)
      ensures OnlyTouches(old(Snapshot()), Snapshot(), s)
      ensures r.Ok? ==> kernel.failures == old(kernel.failures)
    {
      ghost var w := Snapshot();
      assert ServiceOk(w, s - 1);
      forall j | 0 <= j < SESSIONS && Involved(buffers.entries[j], s)
        ensures buffers.entries[j].value.provider.owner == p.owner
      {
        assert BufferOk(w, j);
      }
      r := buffers.Withdraw(kernel, s, p.owner);
      if r.Err? {
        bindings.Fault(s);
      } else {
        WithdrawnIsUnseen(w.entries, w.mapped, buffers.entries, kernel.mapped, s, p.owner);
      }
      BuffersWithdrawn(w, Snapshot(), s, p.owner);
      ShrinkingKeepsBacking(w.entries, w.mapped, buffers.entries, kernel.mapped, s);
    }

    lemma StoppingIsBound(caller: nat, id: nat, generation: nat)
      requires Valid()
      ensures bindings.CanAcknowledge(caller, id, generation) <==> Stopping(Snapshot(), caller, id, generation)
      ensures Stopping(Snapshot(), caller, id, generation) ==>
                bindings.ProviderBinding(caller, id).value.service == ServiceBoundTo(Snapshot(), id)
    {
      hide Bound, Shared, BufferOk, ServiceOk, ClientOk, FreshOk;
      if Stopping(Snapshot(), caller, id, generation) || bindings.CanAcknowledge(caller, id, generation) {
        assert ServiceAt(bindings.providers, bindings.services, ServiceBoundTo(Snapshot(), id) - 1);
      }
    }

    /** A Provider reports that it has finished. Event, buffers and receiver are taken back in this
        order; when no effect fails, a Provider whose binding is quiescing always succeeds. */
    method HandleQuiesced(caller: nat, id: nat, generation: nat) returns (r: Status)
      requires Valid()
      modifies bindings`services, buffers, events, kernel
      ensures Valid() && Progress()
      ensures AcknowledgeAnswer(old(Snapshot()), Snapshot(), caller, id, generation, r,
                                kernel.failures > old(kernel.failures))
      ensures OnlyTouches(old(Snapshot()), Snapshot(), ServiceBoundTo(old(Snapshot()), id))
      ensures r.Ok? ==> kernel.failures == old(kernel.failures)
    {
      hide Stopping, OnlyTouches, Bound, Shared, ServiceOk, BufferOk, ClientOk, FreshOk, Sound, EntryAt, PageAt;
      ghost var w := Snapshot();
      StoppingIsBound(caller, id, generation);
      TouchesNothing(w, ServiceBoundTo(w, id));
      var state := bindings.ProviderBinding(caller, id);
      if state.Error? {
        return Err(state.error);
      }
      if state.value.generation != generation || !state.value.phase.Quiescing? {
        return Err(InvalidArgument);
      }
      OwnBinding(caller, id);
      var s, p := state.value.service, bindings.providers[id - 1];
      r := DropEvent(s, p);
      if r.Err? {
        return;
      }
      ghost var w1 := Snapshot();
      r := DropBuffers(s, p);
      ghost var w2 := Snapshot();
      TouchesTwice(w, w1, w2, s);
      if r.Err? {
        return;
      }
      r := DropReceiver(s, caller, id, generation);
      TouchesTwice(w, w2, Snapshot(), s);
    }

    method DropReceiver(s: nat, caller: nat, id: nat, generation: nat) returns (r: Status)
      requires Valid() && bindings.CanAcknowledge(caller, id, generation)
      requires s == bindings.ProviderBinding(caller, id).value.service
      requires 1 <= s <= |bindings.services| && events.services[s - 1].receiver.None? && Unseen(buffers.entries, s)
      modifies bindings`services, kernel
      ensures Valid() && Progress()
      ensures r.Ok? ==> bindings.services == old(bindings.Phased(s, Quiesced))
      ensures r.Err? ==> kernel.failures > old(kernel.failures)
      ensures OnlyTouches(old(Snapshot()), Snapshot(), s)
      ensures r.Err? ==>
                bindings.services == if r.error.Fatal? then old(bindings.Phased(s, Faulted)) else old(bindings.services)
      ensures r.Ok? ==> kernel.failures == old(kernel.failures)
    {
      hide ServiceSound, ProviderSound, BufferOk, ClientOk, Shared, FreshOk;
      ghost var w := Snapshot();
      bindings.BindingIsOwn(caller, id);
      assert ServiceOk(w, s - 1) && ServiceAt(bindings.providers, bindings.services, s - 1);
      var revoked := kernel.Revoke(s, caller);
      var done := bindings.Acknowledge(caller, id, generation, revoked);
      ReceiverRevoked(w, Snapshot(), s);
      return if done.Value? then Ok else Err(done.error);
    }

    // ---- giving a Service to a Provider ----

    /** Event first, then buffers and receiver. A failure that is not Fatal leaves nothing behind. */
    method InstallBuffered(s: nat, p: Provider) returns (r: Status)
      requires buffers.Valid(kernel) && events.Valid() && ServiceIndexed(s)
      requires !events.services[s - 1].faulted && events.services[s - 1].receiver.None?
      requires Holding(s, p.owner) !in kernel.eventHolders
      requires forall j :: 0 <= j < SESSIONS ==> !HasCandidate(buffers.entries[j], s)
      modifies buffers`entries, events`services, kernel`mapped, kernel`reserved, kernel`failures, kernel`receivers,
               kernel`eventHolders
      ensures buffers.Valid(kernel) && events.Valid() && kernel.failures >= old(kernel.failures)
      ensures InstallResult(old(Snapshot()), Snapshot(), s, p, r)
      ensures r.Err? && Takes(old(buffers.entries), s, p) ==> kernel.failures > old(kernel.failures)
      ensures r.Ok? ==> kernel.failures == old(kernel.failures)
    {
      r := Ok;
      if p.profile == MANAGED_EVENT_PROFILE {
        r := events.Install(kernel, s, p.owner, p.eventSlot);
        if r.Err? {
          forall j | 0 <= j < SESSIONS
            ensures DisturbedAt(old(buffers.entries), old(kernel.mapped), buffers.entries, kernel.mapped, s, p.owner, j)
          {
            assert SameAt(old(buffers.entries), old(kernel.mapped), buffers.entries, kernel.mapped, j);
          }
          return;
        }
      }
      r := buffers.Install(kernel, s, p.owner);
      if r.Err? && p.profile == MANAGED_EVENT_PROFILE {
        var undone := events.Withdraw(kernel, s, p.owner);
        if undone.Err? {
          r := Err(Fatal);
        }
      }
    }

    /** Binds a quiesced Service to its pending Provider. A failure that is not Fatal changes nothing. */
    method HandleCommit(admin: bool, caller: nat, id: nat, generation: nat) returns (r: Status)
      requires Valid()
      modifies bindings, buffers`entries, events`services, kernel`mapped, kernel`reserved, kernel`failures,
               kernel`receivers, kernel`eventHolders, `holders
      ensures Valid() && Progress()
      ensures CommitAnswer(old(Snapshot()), Snapshot(), admin, caller, id, generation, r)
      ensures OnlyTouches(old(Snapshot()), Snapshot(), id)
      ensures admin && old(bindings.CanCommit(caller, id, generation)) ==>
                NoClient(old(buffers.entries), id, old(bindings.Pending(id)).owner) ==>
                  r.Ok? || kernel.failures > old(kernel.failures)
      ensures r.Ok? ==> kernel.failures == old(kernel.failures)
    {
      ghost var w := Snapshot();
      TouchesNothing(w, id);
      if !admin {
        return Err(PermissionDenied);
      }
      if !bindings.CanCommit(caller, id, generation) {
        var refused := bindings.Commit(caller, id, generation, Ok);
        return Err(refused.error);
      }
      assert ServiceAt(bindings.providers, bindings.services, id - 1);
      QuiescedReady(w, id);
      if NoClient(buffers.entries, id, bindings.providers[bindings.services[id - 1].pending.value - 1].owner) {
        assert ProviderAt(bindings.providers, bindings.services, bindings.services[id - 1].pending.value - 1);
        QuiescedTakes(w, id, bindings.Pending(id));
      }
      ghost var owner;
      r, owner := InstallNext(caller, id, generation);
      Concluded(w, Snapshot(), id, owner, r);
    }

    method InstallNext(caller: nat, id: nat, generation: nat) returns (r: Status, ghost owner: nat)
      requires bindings.Valid() && buffers.Valid(kernel) && events.Valid() && bindings.CanCommit(caller, id, generation)
      requires |holders| == |bindings.services|
      requires !events.services[id - 1].faulted && events.services[id - 1].receiver.None?
      requires NoHolder(kernel.eventHolders, id)
      requires forall j :: 0 <= j < SESSIONS ==> !HasCandidate(buffers.entries[j], id)
      modifies bindings, buffers`entries, events`services, kernel`mapped, kernel`reserved, kernel`failures,
               kernel`receivers, kernel`eventHolders, `holders
      ensures bindings.Valid() && buffers.Valid(kernel) && events.Valid() && Progress()
      ensures Conclusion(old(Snapshot()), Snapshot(), id, owner, r)
      ensures r.Err? && Takes(old(buffers.entries), id, old(bindings.Pending(id))) ==>
                kernel.failures > old(kernel.failures)
      ensures owner == old(bindings.Pending(id)).owner
      ensures r.Ok? ==>
                var sv := old(bindings.services)[id - 1];
                && sv.pending.Some?
                && bindings.services[id - 1] == sv.(provider := sv.pending.value, pending := None,
                                                    state := BindingState(id, generation + 1, Active))
      ensures r.Ok? ==> kernel.failures == old(kernel.failures)
    {
      hide NameAt, NameUsed, ProviderAt, OneLivePerOwner, EntryAt, PageAt, SameAt;
      assert ServiceAt(bindings.providers, bindings.services, id - 1);
      var next := bindings.providers[bindings.services[id - 1].pending.value - 1];
      owner := next.owner;
      r := InstallBuffered(id, next);
      ghost var w1 := Snapshot();
      var done := bindings.Commit(caller, id, generation, r);
      if r.Ok? || r.error.Fatal? {
        holders := holders[id - 1 := next.owner];
      }
      Notice(old(Snapshot()), w1, Snapshot(), id, next, r);
    }

    /** Returns a Service to the Provider it had. A failure that is not Fatal changes nothing. */
    method HandleAbort(admin: bool, caller: nat, id: nat, generation: nat) returns (r: Status)
      requires Valid()
      modifies bindings, buffers`entries, events`services, kernel`mapped, kernel`reserved, kernel`failures,
               kernel`receivers, kernel`eventHolders, `holders
      ensures Valid() && Progress()
      ensures AbortAnswer(old(Snapshot()), Snapshot(), admin, caller, id, generation, r,
                          kernel.failures > old(kernel.failures))
      ensures OnlyTouches(old(Snapshot()), Snapshot(), id)
      ensures r.Ok? ==> kernel.failures == old(kernel.failures)
    {
      hide Bound, Shared, ServiceOk, BufferOk, ClientOk, FreshOk, OnlyTouches, Activated, Unchanged;
      ghost var w := Snapshot();
      TouchesNothing(w, id);
      assert 1 <= id <= |w.services| ==> ServiceAt(w.providers, w.services, id - 1);
      if !admin {
        return Err(PermissionDenied);
      }
      if !bindings.CanAbort(caller, id, generation) || bindings.services[id - 1].state.phase.Prepared? {
        r := AbortPrepared(caller, id, generation);
        return;
      }
      QuiescedReady(w, id);
      BoundIsNoClient(w, buffers.backing, id);
      assert ProviderAt(bindings.providers, bindings.services, bindings.services[id - 1].provider - 1);
      QuiescedTakes(w, id, bindings.Current(id));
      ghost var owner;
      r, owner := Reinstall(caller, id, generation);
      Concluded(w, Snapshot(), id, owner, r);
    }

    /** Nothing was withdrawn yet, so only the tables change. */
    method AbortPrepared(caller: nat, id: nat, generation: nat) returns (r: Status)
      requires Valid()
      requires (bindings.CanAbort(caller, id, generation) ==> bindings.services[id - 1].state.phase.Prepared?)
      modifies bindings`providers, bindings`services
      ensures Valid() && Progress()
      ensures r.Ok? <==> old(bindings.CanAbort(caller, id, generation))
      ensures r.Ok? ==>
                && 1 <= id <= |old(bindings.services)| == |bindings.services|
                && bindings.services[id - 1] == WithPhase(old(bindings.services)[id - 1], Active).(pending := None)
      ensures r.Err? ==> !r.error.Fatal? && Snapshot() == old(Snapshot())
      ensures OnlyTouches(old(Snapshot()), Snapshot(), id)
    {
      ghost var w := Snapshot();
      assert 1 <= id <= |bindings.services| ==> ServiceAt(bindings.providers, bindings.services, id - 1);
      r := bindings.Abort(caller, id, generation, Ok);
      TablesKeepSafe(w, Snapshot());
      TablesTouch(w, Snapshot(), id);
    }

    method Reinstall(caller: nat, id: nat, generation: nat) returns (r: Status, ghost owner: nat)
      requires bindings.Valid() && buffers.Valid(kernel) && events.Valid() && bindings.CanAbort(caller, id, generation)
      requires |holders| == |bindings.services| && bindings.services[id - 1].state.phase.Quiesced?
      requires !events.services[id - 1].faulted && events.services[id - 1].receiver.None?
      requires NoHolder(kernel.eventHolders, id)
      requires forall j :: 0 <= j < SESSIONS ==> !HasCandidate(buffers.entries[j], id)
      modifies bindings, buffers`entries, events`services, kernel`mapped, kernel`reserved, kernel`failures,
               kernel`receivers, kernel`eventHolders, `holders
      ensures bindings.Valid() && buffers.Valid(kernel) && events.Valid() && Progress()
      ensures Conclusion(old(Snapshot()), Snapshot(), id, owner, r)
      ensures r.Err? && Takes(old(buffers.entries), id, old(bindings.Current(id))) ==>
                kernel.failures > old(kernel.failures)
      ensures owner == old(bindings.Current(id)).owner
      ensures r.Ok? ==>
                var sv := old(bindings.services)[id - 1];
                bindings.services[id - 1] == sv.(pending := None, state := BindingState(id, generation, Active))
      ensures r.Ok? ==> kernel.failures == old(kernel.failures)
    {
      hide NameAt, NameUsed, ProviderAt, OneLivePerOwner, EntryAt, PageAt, SameAt;
      assert ServiceAt(bindings.providers, bindings.services, id - 1);
      var current := bindings.providers[bindings.services[id - 1].provider - 1];
      owner := current.owner;
      r := InstallBuffered(id, current);
      ghost var w1 := Snapshot();
      var done := bindings.Abort(caller, id, generation, r);
      if r.Ok? || r.error.Fatal? {
        holders := holders[id - 1 := current.owner];
      }
      Notice(old(Snapshot()), w1, Snapshot(), id, current, r);
    }

    // ---- publishing ----

    /** The effects of a first publication under the identifier `id`. An identifier whose cleanup is
        uncertain is poisoned and never used again. */
    method InstallFirst(id: nat, p: Provider) returns (r: Status)
      requires events.Valid() && ServiceIndexed(id) && |poisoned| == SERVICES == |endpoints|
      requires !poisoned[id - 1] ==>
                 !events.services[id - 1].faulted && events.services[id - 1].receiver.None?
                 && NoHolder(kernel.receivers, id) && NoHolder(kernel.eventHolders, id)
      modifies `poisoned, `endpoints, events`services, kernel`failures, kernel`receivers, kernel`eventHolders
      ensures events.Valid() && |endpoints| == SERVICES && |poisoned| == SERVICES
      ensures events.services == old(events.services)[id - 1 := events.services[id - 1]]
      ensures poisoned == old(poisoned)[id - 1 := poisoned[id - 1]] && (old(poisoned)[id - 1] ==> poisoned[id - 1])
      ensures r.Err? && p.owner != 0 && Eventful(p) && !old(poisoned)[id - 1] ==> kernel.failures > old(kernel.failures)
      ensures r.Ok? ==>
                && poisoned == old(poisoned) && !poisoned[id - 1] && !events.services[id - 1].faulted
                && (events.services[id - 1].receiver.Some? <==> p.profile == MANAGED_EVENT_PROFILE)
                && (events.services[id - 1].receiver.Some? ==> events.services[id - 1].receiver.value.owner == p.owner)
                && kernel.receivers == old(kernel.receivers) + {Holding(id, p.owner)}
                && kernel.eventHolders == (if p.profile == MANAGED_EVENT_PROFILE
                                           then old(kernel.eventHolders) + {Holding(id, p.owner)}
                                           else old(kernel.eventHolders))
      ensures r.Err? ==>
                && (kernel.receivers == old(kernel.receivers)
                    || kernel.receivers == old(kernel.receivers) + {Holding(id, p.owner)})
                && (kernel.eventHolders == old(kernel.eventHolders)
                    || kernel.eventHolders == old(kernel.eventHolders) + {Holding(id, p.owner)})
                && (!poisoned[id - 1] ==>
                      && !events.services[id - 1].faulted && events.services[id - 1].receiver.None?
                      && kernel.receivers == old(kernel.receivers) && kernel.eventHolders == old(kernel.eventHolders))
      ensures r.Ok? ==> kernel.failures == old(kernel.failures)
      ensures endpoints == old(endpoints) || endpoints == old(endpoints)[id - 1 := true]
      ensures r.Ok? ==> endpoints[id - 1]
    {
      if poisoned[id - 1] {
        return Err(Fatal);
      }
      if !endpoints[id - 1] {
        r := kernel.Attempt();
        if r.Err? {
          return;
        }
        endpoints := endpoints[id - 1 := true];
      }
      r := GrantFirst(id, p);
      if r == Err(Fatal) {
        poisoned := poisoned[id - 1 := true];
      }
    }

    /** Event first, then the receiver. A failure that is not Fatal leaves nothing behind. */
    method GrantFirst(id: nat, p: Provider) returns (r: Status)
      requires events.Valid() && ServiceIndexed(id)
      requires !events.services[id - 1].faulted && events.services[id - 1].receiver.None?
      requires Holding(id, p.owner) !in kernel.eventHolders
      modifies events`services, kernel`failures, kernel`receivers, kernel`eventHolders
      ensures events.Valid() && events.services == old(events.services)[id - 1 := events.services[id - 1]]
      ensures kernel.failures >= old(kernel.failures)
      ensures (r.Err? && p.owner != 0 && Eventful(p) ==> kernel.failures > old(kernel.failures))
      ensures r.Ok? ==>
                && !events.services[id - 1].faulted
                && (events.services[id - 1].receiver.Some? <==> p.profile == MANAGED_EVENT_PROFILE)
                && (events.services[id - 1].receiver.Some? ==> events.services[id - 1].receiver.value.owner == p.owner)
                && kernel.receivers == old(kernel.receivers) + {Holding(id, p.owner)}
                && kernel.eventHolders == (if p.profile == MANAGED_EVENT_PROFILE
                                           then old(kernel.eventHolders) + {Holding(id, p.owner)}
                                           else old(kernel.eventHolders))
      ensures r.Err? ==>
                && (kernel.receivers == old(kernel.receivers)
                    || kernel.receivers == old(kernel.receivers) + {Holding(id, p.owner)})
                && (kernel.eventHolders == old(kernel.eventHolders)
                    || kernel.eventHolders == old(kernel.eventHolders) + {Holding(id, p.owner)})
                && (!r.error.Fatal? ==>
                      && !events.services[id - 1].faulted && events.services[id - 1].receiver.None?
                      && kernel.receivers == old(kernel.receivers) && kernel.eventHolders == old(kernel.eventHolders))
      ensures r.Ok? ==> kernel.failures == old(kernel.failures)
    {
      r := Ok;
      if p.profile == MANAGED_EVENT_PROFILE {
        r := events.Install(kernel, id, p.owner, p.eventSlot);
      }
      if r.Ok? {
        r := kernel.Attempt();
      }
      if r.Ok? {
        r := kernel.Grant(id, p.owner);
      }
      if r.Err? && p.profile == MANAGED_EVENT_PROFILE {
        var undone := events.Withdraw(kernel, id, p.owner);
        if undone.Err? {
          r := Err(Fatal);
        }
      }
    }

    method HandlePublish(admin: bool, caller: nat, provider: nat) returns (r: Outcome<nat>)
      requires Valid()
      modifies `poisoned, `endpoints, `holders, bindings, events`services, kernel`failures, kernel`receivers,
               kernel`eventHolders
      ensures Valid() && Progress()
      ensures PublishAnswer(old(Snapshot()), Snapshot(), admin, caller, provider, r,
                            kernel.failures > old(kernel.failures))
      ensures OnlyTouches(old(Snapshot()), Snapshot(), 0)
      ensures r.Value? ==> kernel.failures == old(kernel.failures)
      ensures r.Value? ==> endpoints == old(endpoints)[r.value - 1 := true]
    {
      ghost var w := Snapshot();
      TouchesNothing(w, 0);
      if !admin {
        return Error(PermissionDenied);
      }
      if !bindings.CanPublish(caller, provider) {
        r := bindings.Publish(caller, provider, Err(InvalidArgument));
        return;
      }
      assert FreshOk(w, |w.services|);
      r := PublishFirst(caller, provider);
      if r.Value? {
        ServiceAdded(w, Snapshot());
      } else {
        PublishFailed(w, Snapshot(), |w.services|);
      }
    }

    method PublishFirst(caller: nat, provider: nat) returns (r: Outcome<nat>)
      requires bindings.Valid() && events.Valid() && bindings.CanPublish(caller, provider)
      requires |endpoints| == |poisoned| == SERVICES && |holders| == |bindings.services|
      requires FreshOk(Snapshot(), |bindings.services|)
      modifies `poisoned, `endpoints, `holders, bindings, events`services, kernel`failures, kernel`receivers,
               kernel`eventHolders
      ensures bindings.Valid() && events.Valid() && |endpoints| == SERVICES
      ensures AllAdvance(old(bindings.services), bindings.services) && NamesGrow(old(bindings.names), bindings.names)
      ensures r.Value? ==>
                && Added(old(Snapshot()), Snapshot()) && r.value == |old(bindings.services)| + 1
                && var p := old(bindings.providers)[provider - 1];
                   && bindings.services == old(bindings.services) + [
                        Service(caller, provider, None, BindingState(r.value, 1, Active), SESSIONS, p.profile)]
                   && bindings.providers == old(bindings.providers)[provider - 1 := p.(service := Some(r.value))]
      ensures r.Error? ==> Refused(old(Snapshot()), Snapshot(), |old(bindings.services)|)
      ensures !old(poisoned)[|old(bindings.services)|] ==> r.Value? || kernel.failures > old(kernel.failures)
      ensures r.Value? ==> kernel.failures == old(kernel.failures)
      ensures r.Value? ==> endpoints == old(endpoints)[r.value - 1 := true]
    {
      var id, p := |bindings.services| + 1, bindings.providers[provider - 1];
      assert ProviderAt(bindings.providers, bindings.services, provider - 1);
      var install := InstallFirst(id, p);
      r := bindings.Publish(caller, provider, install);
      if r.Value? {
        holders := holders + [p.owner];
      }
    }

    // ---- session buffers and events ----

    /** An open session of a managed Service whose Provider is registered. */
    predicate Serves(id: nat)
      requires Valid()
      reads this, bindings, buffers, events, kernel
    {
      && bindings.FindSession(id).Value? && !bindings.FindSession(id).value.closed
      && var sv := bindings.services[bindings.FindSession(id).value.service - 1];
         && (sv.profile == MANAGED_BUFFER_PROFILE || sv.profile == MANAGED_EVENT_PROFILE)
         && bindings.FindProvider(sv.provider).Value?
    }

    /** A client that may have such a buffer: the Service is bound and is not being handed over. */
    predicate CanBuffer(caller: nat, id: nat, bytes: nat)
      requires Valid()
      reads this, bindings, buffers, events, kernel
    {
      && Serves(id) && bindings.FindSession(id).value.owner == Process(caller) && 1 <= bytes <= 65536
      && var s := bindings.FindSession(id).value.service;
         var sv := bindings.services[s - 1];
         && (sv.state.phase.Active? || sv.state.phase.Prepared?)
         && buffers.CanCreate(id, s, caller, bindings.FindProvider(sv.provider).value.owner, (bytes + PAGE - 1) / PAGE)
    }

    /** A Provider that may look up a session's buffer: it is bound, and has not given the buffer back. */
    predicate CanView(caller: nat, id: nat)
      requires Valid()
      reads this, bindings, buffers, events, kernel
    {
      && Serves(id)
      && var sv := bindings.services[bindings.FindSession(id).value.service - 1];
         && PermitsBufferView(sv.state.phase) && bindings.FindProvider(sv.provider).value.owner == caller
         && var e := buffers.entries[SessionIndex(id).value];
            e.Some? && Open(e.value) && (sv.state.phase.Quiescing? ==> e.value.provider.installed == e.value.pages)
    }

    /** Attaches a buffer to a session, mapped for the client and for the bound Provider. */
    method HandleBufferCreate(caller: nat, id: nat, bytes: nat) returns (r: Outcome<View>)
      requires Valid()
      modifies bindings`services, buffers, kernel`mapped, kernel`zeroed, kernel`reserved, kernel`failures, kernel`taken
      ensures Valid() && Progress()
      ensures r.Value? ==> old(CanBuffer(caller, id, bytes))
      ensures old(CanBuffer(caller, id, bytes)) ==> r.Value? || kernel.failures > old(kernel.failures)
      ensures BufferAnswer(old(Snapshot()), Snapshot(), caller, id, bytes, r)
      ensures OnlyTouches(old(Snapshot()), Snapshot(), ServiceAtSession(old(Snapshot()), id))
      ensures r.Value? ==> kernel.failures == old(kernel.failures)
    {
      hide OnlyTouches, Bound, Shared, ServiceOk, BufferOk, ClientOk, FreshOk, Sound, EntryAt, PageAt, AllReserved,
           AllTracked;
      ghost var w := Snapshot();
      TouchesNothing(w, ServiceAtSession(w, id));
      var session := bindings.FindSession(id);
      if session.Error? {
        return Error(session.error);
      }
      var service := bindings.services[session.value.service - 1];
      if session.value.closed
         || (service.profile != MANAGED_BUFFER_PROFILE && service.profile != MANAGED_EVENT_PROFILE) {
        return Error(IllegalOperation);
      }
      var provider := bindings.FindProvider(service.provider);
      if provider.Error? {
        return Error(provider.error);
      }
      if !service.state.phase.Active? && !service.state.phase.Prepared? {
        return Error(IllegalOperation);
      }
      if session.value.owner != Process(caller) {
        return Error(PermissionDenied);
      }
      if bytes == 0 || bytes > 65536 {
        return Error(InvalidArgument);
      }
      r := CreateBuffer(session.value.service, id, caller, provider.value.owner, (bytes + PAGE - 1) / PAGE);
      if r.Value? {
        var rescan := kernel.Attempt();
        if rescan.Err? {
          r := Error(rescan.error);
        }
      }
    }

    method CreateBuffer(s: nat, id: nat, client: nat, provider: nat, pages: nat) returns (r: Outcome<View>)
      requires Valid() && bindings.FindSession(id).Value? && bindings.FindSession(id).value.service == s
      requires 1 <= s <= |bindings.services| && !Imported(bindings.services[s - 1])
      requires bindings.services[s - 1].state.phase.Active? || bindings.services[s - 1].state.phase.Prepared?
      requires 1 <= bindings.services[s - 1].provider <= |bindings.providers|
      requires provider == bindings.providers[bindings.services[s - 1].provider - 1].owner
      modifies bindings`services, buffers, kernel`mapped, kernel`zeroed, kernel`reserved, kernel`failures, kernel`taken
      ensures Valid() && Progress() && kernel.failures >= old(kernel.failures)
      ensures r.Value? ==> old(buffers.CanCreate(id, s, client, provider, pages))
      ensures old(buffers.CanCreate(id, s, client, provider, pages)) ==>
                r.Value? || kernel.failures > old(kernel.failures)
      ensures r.Value? ==>
                && SessionIndex(id).Some? && buffers.entries[SessionIndex(id).value].Some?
                && var b := buffers.entries[SessionIndex(id).value].value;
                   && Open(b) && b.client.owner == client && b.pages == pages
                   && r.value == View(b.client.address, pages * PAGE)
      ensures OnlyTouches(old(Snapshot()), Snapshot(), s)
      ensures r.Value? ==>
                && bindings.services == old(bindings.services)
                && buffers.entries[SessionIndex(id).value].value.service == s
      ensures SessionIndex(id).Some?
      ensures buffers.entries != old(buffers.entries) ==> old(buffers.entries)[SessionIndex(id).value].None?
      ensures forall j :: 0 <= j < SESSIONS && (j != SessionIndex(id).value || old(buffers.entries)[j].Some?) ==>
                SameAt(old(buffers.entries), old(kernel.mapped), buffers.entries, kernel.mapped, j)
      ensures r.Value? ==> kernel.failures == old(kernel.failures)
    {
      ghost var w := Snapshot();
      assert ServiceOk(w, s - 1);
      r := buffers.Create(kernel, id, s, client, provider, pages);
      if r == Error(Fatal) {
        bindings.Fault(s);
      }
      ghost var slot := SessionIndex(id).value;
      if buffers.entries == w.entries {
        TablesKeepSafe(w, Snapshot());
        TablesTouch(w, Snapshot(), s);
      } else {
        OneEntryKeepsBacking(w.entries, w.mapped, buffers.entries, kernel.mapped, slot);
        BufferCreated(w, Snapshot(), s, client, slot, r.Value?, r == Error(Fatal));
      }
    }

    /** Where the bound Provider finds a session's buffer: every page of the answer is mapped there. */
    method HandleBufferView(caller: nat, id: nat) returns (r: Outcome<View>)
      requires Valid()
      ensures r.Value? <==> CanView(caller, id)
      ensures r.Value? ==> SessionIndex(id).Some? && buffers.entries[SessionIndex(id).value].Some?
      ensures r.Value? ==>
                var b := buffers.entries[SessionIndex(id).value].value;
                && r.value == View(b.provider.address, b.pages * PAGE) && caller == b.provider.owner
                && forall k :: 0 <= k < b.pages ==>
                     Mapped(caller, r.value.address + k * PAGE, b.physical + k) in kernel.mapped
    {
      var session := bindings.FindSession(id);
      if session.Error? {
        return Error(session.error);
      }
      var service := bindings.services[session.value.service - 1];
      if session.value.closed
         || (service.profile != MANAGED_BUFFER_PROFILE && service.profile != MANAGED_EVENT_PROFILE) {
        return Error(IllegalOperation);
      }
      var provider := bindings.FindProvider(service.provider);
      if provider.Error? {
        return Error(provider.error);
      }
      if provider.value.owner != caller || !PermitsBufferView(service.state.phase) {
        return Error(PermissionDenied);
      }
      assert BufferOk(Snapshot(), SessionIndex(id).value) && ServiceOk(Snapshot(), session.value.service - 1);
      r := buffers.ViewFor(kernel, id, provider.value.owner);
    }

    /** A client that may notify the Service: the session is its own and the event is bound. */
    predicate CanNotify(caller: nat, id: nat, slot: nat)
      requires Valid()
      reads this, bindings, buffers, events, kernel
    {
      && bindings.FindSession(id).Value? && !bindings.FindSession(id).value.closed
      && bindings.FindSession(id).value.owner == Process(caller)
      && var s := bindings.FindSession(id).value.service;
         && bindings.services[s - 1].profile == MANAGED_EVENT_PROFILE
         && (bindings.services[s - 1].state.phase.Active? || bindings.services[s - 1].state.phase.Prepared?)
         && events.CanConnect(id, s, caller, slot)
    }

    /** Gives a session the right to notify its Service. */
    method HandleEventConnect(caller: nat, id: nat, slot: nat) returns (r: Status)
      requires Valid()
      modifies bindings`services, events, kernel
      ensures Valid() && Progress()
      ensures r.Ok? ==> old(CanNotify(caller, id, slot))
      ensures old(CanNotify(caller, id, slot)) ==> r.Ok? || kernel.failures > old(kernel.failures)
      ensures r.Ok? ==> bindings.services == old(bindings.services)
      ensures NotifyAnswer(old(Snapshot()), Snapshot(), caller, id, slot, r, kernel.failures > old(kernel.failures))
      ensures OnlyTouches(old(Snapshot()), Snapshot(), ServiceAtSession(old(Snapshot()), id))
      ensures r.Ok? ==> kernel.failures == old(kernel.failures)
    {
      ghost var w := Snapshot();
      TouchesNothing(w, ServiceAtSession(w, id));
      var session := bindings.FindSession(id);
      if session.Error? {
        return Err(session.error);
      }
      var s := session.value.service;
      if session.value.closed || session.value.owner != Process(caller) {
        return Err(PermissionDenied);
      }
      if bindings.services[s - 1].profile != MANAGED_EVENT_PROFILE
         || (!bindings.services[s - 1].state.phase.Active? && !bindings.services[s - 1].state.phase.Prepared?) {
        return Err(IllegalOperation);
      }
      r := ConnectEvent(s, id, caller, slot);
    }

    method ConnectEvent(s: nat, id: nat, caller: nat, slot: nat) returns (r: Status)
      requires Valid() && bindings.FindSession(id).Value? && bindings.FindSession(id).value.service == s
      modifies bindings`services, events, kernel`failures
      ensures Valid() && Progress()
      ensures r.Ok? ==> old(events.CanConnect(id, s, caller, slot)) && bindings.services == old(bindings.services)
      ensures old(events.CanConnect(id, s, caller, slot)) ==> r.Ok? || kernel.failures > old(kernel.failures)
      ensures OnlyTouches(old(Snapshot()), Snapshot(), s)
      ensures forall j :: 0 <= j < SESSIONS && j != SessionIndex(id).value ==>
                events.clients[j] == old(events.clients)[j]
      ensures r.Ok? ==>
                && events.clients[SessionIndex(id).value] == Some(Client(s, caller, slot, true, false))
                && (old(events.clients)[SessionIndex(id).value].Some? ==>
                      events.clients[SessionIndex(id).value] == old(events.clients)[SessionIndex(id).value])
      ensures r.Err? && !r.error.Fatal? ==> Snapshot() == old(Snapshot())
      ensures r.Ok? ==> kernel.failures == old(kernel.failures)
      ensures kernel.failures >= old(kernel.failures)
      ensures r == Err(Fatal) ==>
                && bindings.services == old(bindings.Phased(s, Faulted))
                && (|| kernel.failures > old(kernel.failures) || old(events.services)[s - 1].faulted
                    || (old(events.clients)[SessionIndex(id).value].Some?
                        && !old(events.clients)[SessionIndex(id).value].value.ready))
    {
      hide Bound, Shared, ServiceOk, BufferOk, ClientOk, FreshOk, Sound, EntryAt, PageAt, OnlyTouches;
      ghost var w := Snapshot();
      r := events.Connect(kernel, id, s, caller, slot);
      if r == Err(Fatal) {
        bindings.Fault(s);
      }
      ConnectionMoved(w, Snapshot(), s);
    }

    // ---- closing a session ----

    /** Closes a session. An attached buffer is closed only while its Service is quiesced. */
    method HandleClose(caller: nat, id: nat) returns (r: Status)
      requires Valid()
      modifies bindings`services, bindings`sessions, buffers`entries, events, kernel`mapped, kernel`failures
      ensures Valid() && Progress()
      ensures CloseAnswer(old(Snapshot()), Snapshot(), caller, id, r, kernel.failures > old(kernel.failures))
      ensures OnlyTouches(old(Snapshot()), Snapshot(), ServiceAtSession(old(Snapshot()), id))
      ensures r.Ok? ==> kernel.failures == old(kernel.failures)
    {
      hide OnlyTouches, Bound, Shared, ServiceOk, BufferOk, ClientOk, FreshOk, Sound, EntryAt, PageAt;
      ghost var w := Snapshot();
      TouchesNothing(w, ServiceAtSession(w, id));
      var session := bindings.FindSession(id);
      if session.Error? {
        return Err(session.error);
      }
      if session.value.owner != Process(caller) {
        return Err(PermissionDenied);
      }
      var i, s := SessionIndex(id).value, session.value.service;
      if buffers.entries[i].Some? && !buffers.entries[i].value.closed
         && !bindings.services[s - 1].state.phase.Quiesced? {
        return Err(IllegalOperation);
      }
      r := CloseInOrder(caller, id, s);
    }

    method CloseInOrder(caller: nat, id: nat, s: nat) returns (r: Status)
      requires Valid() && MayClose(Snapshot(), caller, id) && s == bindings.sessions[Place(id)].service
      modifies bindings`services, bindings`sessions, buffers`entries, events, kernel`mapped, kernel`failures
      ensures Valid() && Progress()
      ensures CloseAnswer(old(Snapshot()), Snapshot(), caller, id, r, kernel.failures > old(kernel.failures))
      ensures OnlyTouches(old(Snapshot()), Snapshot(), s)
      ensures r.Ok? ==> kernel.failures == old(kernel.failures)
    {
      hide OnlyTouches, Bound, Shared, ServiceOk, BufferOk, ClientOk, FreshOk, Sound, EntryAt, PageAt, CloseAnswer;
      ghost var w := Snapshot();
      r := CloseEvent(s, id);
      ghost var w1 := Snapshot();
      if r.Err? {
        EventStepAnswers(w, w1, caller, id, r, kernel.failures > old(kernel.failures));
        return;
      }
      r := CloseBuffer(s, id);
      ghost var w2 := Snapshot();
      TouchesTwice(w, w1, w2, s);
      if r.Err? {
        BufferStepAnswers(w, w1, w2, caller, id, r, kernel.failures > old(kernel.failures));
        return;
      }
      r := CloseSession(caller, id);
      SessionStepAnswers(w, w1, w2, Snapshot(), caller, id, r, kernel.failures > old(kernel.failures));
      TouchesTwice(w, w2, Snapshot(), s);
    }

    method CloseSession(caller: nat, id: nat) returns (r: Status)
      requires Valid() && OwnsSession(Snapshot(), caller, id)
      modifies bindings`sessions, kernel`failures
      ensures Valid() && OnlyTouches(old(Snapshot()), Snapshot(), ServiceAtSession(old(Snapshot()), id))
      ensures var i := Place(id);
              bindings.sessions == if r.Ok? then old(bindings.sessions)[i := old(bindings.sessions)[i].(closed := true)]
                                   else old(bindings.sessions)
      ensures r.Err? ==> kernel.failures > old(kernel.failures)
      ensures r.Ok? ==> kernel.failures == old(kernel.failures)
    {
      ghost var w := Snapshot();
      var session := bindings.FindSession(id);
      var moved := Ok;
      if !session.value.closed {
        moved := kernel.Attempt();
      }
      r := bindings.Close(caller, id, moved);
      TablesKeepSafe(w, Snapshot());
      TablesTouch(w, Snapshot(), ServiceAtSession(w, id));
    }

    method CloseEvent(s: nat, id: nat) returns (r: Status)
      requires Valid() && bindings.FindSession(id).Value? && bindings.FindSession(id).value.service == s
      modifies bindings`services, events, kernel`failures
      ensures Valid() && Progress() && kernel.failures >= old(kernel.failures)
      ensures EventStep(old(Snapshot()), Snapshot(), Place(id), s, r, kernel.failures > old(kernel.failures))
      ensures OnlyTouches(old(Snapshot()), Snapshot(), s)
      ensures r.Ok? ==> kernel.failures == old(kernel.failures)
    {
      hide Bound, Shared, ServiceOk, BufferOk, FreshOk, Sound, EntryAt, PageAt, OnlyTouches;
      ghost var w := Snapshot();
      assert ClientOk(w, SessionIndex(id).value);
      r := events.Close(kernel, id);
      if r == Err(Fatal) {
        bindings.Fault(s);
      }
      ConnectionMoved(w, Snapshot(), s);
    }

    method CloseBuffer(s: nat, id: nat) returns (r: Status)
      requires Valid() && bindings.FindSession(id).Value? && bindings.FindSession(id).value.service == s
      requires var e := buffers.entries[Place(id)];
               e.Some? && !e.value.closed ==> bindings.services[s - 1].state.phase.Quiesced?
      modifies bindings`services, buffers`entries, kernel`mapped, kernel`failures
      ensures Valid() && Progress() && kernel.failures >= old(kernel.failures)
      ensures BufferStep(old(Snapshot()), Snapshot(), Place(id), s, r, kernel.failures > old(kernel.failures))
      ensures OnlyTouches(old(Snapshot()), Snapshot(), s)
      ensures r.Ok? ==> kernel.failures == old(kernel.failures)
    {
      ghost var w, i := Snapshot(), SessionIndex(id).value;
      ClosingEntry(w, i, s);
      r := buffers.Close(kernel, id);
      if r == Err(Fatal) {
        bindings.Fault(s);
      }
      CloseStep(w, Snapshot(), s, i, r);
    }

    // ---- every run ----

    /** Every request does what it answers, to the Service it is about alone. */
    method Step(q: Request) returns (r: Reply)
      requires Valid()
      modifies this, bindings, buffers, events, kernel
      ensures Valid() && Progress()
      ensures Performed(q, old(Snapshot()), Snapshot(), r, kernel.failures > old(kernel.failures))
      ensures OnlyTouches(old(Snapshot()), Snapshot(), Subject(q, old(Snapshot())))
      ensures !r.Denied? ==> kernel.failures == old(kernel.failures)
    {
      hide OnlyTouches, RegisterAnswer, ImportAnswer, ConnectAnswer, CloseAnswer, RetireAnswer, BufferAnswer,
           NotifyAnswer,
           Alpha.Valid, Alpha.Progress, Alpha.Snapshot, ServiceBoundTo, ServiceAtSession;
      match q {
        case Register(caller, interface, raw, notification, profile) =>
          var number := HandleRegister(caller, interface, raw, notification, profile);
          r := AnsweredNumber(number);
        case Import(sessionLimit) =>
          var number := HandleImport(sessionLimit);
          r := AnsweredNumber(number);
        case Connect(owner, id, slot) =>
          var number := HandleConnect(owner, id, slot);
          r := AnsweredNumber(number);
        case Close(caller, id) =>
          var status := HandleClose(caller, id);
          r := Answered(status);
        case Retire(caller, id) =>
          var status := HandleRetire(caller, id);
          r := Answered(status);
        case BufferCreate(caller, id, bytes) =>
          var view := HandleBufferCreate(caller, id, bytes);
          r := AnsweredView(view);
        case EventConnect(caller, id, slot) =>
          var status := HandleEventConnect(caller, id, slot);
          r := Answered(status);
        case _ =>
          r := BindingStep(q);
      }
    }

    /** Requests that publish a Service or hand it over. */
    method BindingStep(q: Request) returns (r: Reply)
      requires Valid()
      requires q.Publish? || q.Prepare? || q.Quiesce? || q.Acknowledge? || q.Commit? || q.Abort?
      modifies this, bindings, buffers, events, kernel
      ensures Valid() && Progress()
      ensures Performed(q, old(Snapshot()), Snapshot(), r, kernel.failures > old(kernel.failures))
      ensures OnlyTouches(old(Snapshot()), Snapshot(), Subject(q, old(Snapshot())))
      ensures !r.Denied? ==> kernel.failures == old(kernel.failures)
    {
      hide OnlyTouches, PublishAnswer, PrepareAnswer, QuiesceAnswer, AcknowledgeAnswer, CommitAnswer, AbortAnswer,
           Alpha.Valid, Alpha.Progress, Alpha.Snapshot, ServiceBoundTo, ServiceAtSession;
      match q {
        case Publish(admin, caller, provider) =>
          var number := HandlePublish(admin, caller, provider);
          r := AnsweredNumber(number);
        case Prepare(admin, caller, id, generation, next) =>
          var status := HandlePrepare(admin, caller, id, generation, next);
          r := Answered(status);
        case Quiesce(admin, caller, id, generation, slot) =>
          var status := HandleQuiesce(admin, caller, id, generation, slot);
          r := Answered(status);
        case Acknowledge(caller, id, generation) =>
          var status := HandleQuiesced(caller, id, generation);
          r := Answered(status);
        case Commit(admin, caller, id, generation) =>
          var status := HandleCommit(admin, caller, id, generation);
          r := Answered(status);
        case Abort(admin, caller, id, generation) =>
          var status := HandleAbort(admin, caller, id, generation);
          r := Answered(status);
      }
    }

    lemma AttachmentsAgree(s: nat)
      requires Valid()
      ensures AttachmentAt(Snapshot(), s)
    {
      if 1 <= s <= |bindings.services| {
        assert ServiceAt(bindings.providers, bindings.services, s - 1);
        forall j | 0 <= j < |bindings.providers|
          ensures bindings.providers[j].service == Some(s) <==>
                    bindings.services[s - 1].provider == j + 1 || bindings.services[s - 1].pending == Some(j + 1)
        {
          bindings.AttachmentIsExact(j + 1, s);
        }
      }
    }

    lemma StartsKept(s: nat)
      requires Valid() && 1 <= s <= |Snapshot().services|
      ensures Kept(Snapshot(), Snapshot(), s) && AttachmentAt(Snapshot(), s)
    {
      KeptAsIs(Snapshot(), s);
      AttachmentsAgree(s);
    }

    lemma FewSessions()
      requires Valid()
      ensures |Snapshot().sessions| <= SESSIONS
    {
    }

    lemma SafeNow()
      requires Valid()
      ensures Safe(Snapshot())
    {
    }

    /** Whatever is requested in whatever order, and whatever the effects answer, the protocol stays
        safe, no name changes its Provider, no faulted binding recovers and no buffer moves. A Service that
        no request is about is as it was, in every respect. */
    method Run(requests: seq<Request>) returns (replies: seq<Reply>, ghost worlds: seq<World>)
      requires Valid()
      modifies this, bindings, buffers, events, kernel
      ensures Valid() && Progress() && |replies| == |requests|
      ensures |worlds| == |requests| + 1 && worlds[0] == old(Snapshot()) && worlds[|requests|] == Snapshot()
      ensures forall i {:trigger StepOfRun(requests, replies, worlds, i)} :: StepOfRun(requests, replies, worlds, i)
      ensures forall s: nat {:trigger Kept(old(Snapshot()), Snapshot(), s)} ::
                1 <= s <= |old(Snapshot()).services| && Unconcerned(requests, old(Snapshot()), s) ==>
                  Kept(old(Snapshot()), Snapshot(), s)
    {
      hide Alpha.Valid, Alpha.Snapshot, Kept, OnlyTouches, Performed, Subject, AttachmentAt;
      ghost var w := Snapshot();
      replies, worlds := [], [w];
      forall s: nat | 1 <= s <= |w.services| ensures Kept(w, w, s) && AttachmentAt(w, s) {
        StartsKept(s);
      }
      for i := 0 to |requests|
        invariant Valid() && Progress() && |replies| == i
        invariant |worlds| == i + 1 && worlds[0] == w && worlds[i] == Snapshot()
        invariant forall k {:trigger StepOfRun(requests, replies, worlds, k)} :: StepOfRun(requests, replies, worlds, k)
        invariant forall s: nat {:trigger Kept(w, Snapshot(), s)} ::
                    1 <= s <= |w.services| && Unconcerned(requests, w, s) ==> Kept(w, Snapshot(), s)
      {
        label Before:
        ghost var services, names, entries, w1 := bindings.services, bindings.names, buffers.entries, Snapshot();
        forall s: nat | 1 <= s <= |w.services| ensures AttachmentAt(w1, s) {
          AttachmentsAgree(s);
        }
        FewSessions();
        SafeNow();
        var r := Step(requests[i]);
        SafeNow();
        FailureExcuses(requests[i], w1, Snapshot(), r, kernel.failures > old@Before(kernel.failures));
        RunLonger(requests, replies, worlds, r, Snapshot());
        forall s: nat | 1 <= s <= |w.services| && Unconcerned(requests, w, s)
          ensures Kept(w, Snapshot(), s)
        {
          assert requests[i] in requests && Kept(w, w1, s);
          Spared(requests[i], w, w1, Snapshot(), s);
        }
        replies, worlds := replies + [r], worlds + [Snapshot()];
        Transitive(old(bindings.services), services, bindings.services, old(bindings.names), names, bindings.names,
                   old(buffers.entries), entries, buffers.entries);
      }
    }

    /** The process that Service `id` is bound to. */
    ghost function BoundOwner(id: nat): nat
      requires bindings.Valid() && 1 <= id <= |bindings.services| && !Imported(bindings.services[id - 1])
      reads bindings
    {
      assert ServiceAt(bindings.providers, bindings.services, id - 1);
      bindings.providers[bindings.services[id - 1].provider - 1].owner
    }

    /** At most one process holds a Service's receiver and its event: the bound one while the Service
        is active, prepared or quiescing, and nobody once it is quiesced. */
    lemma Exclusive(id: nat)
      requires Valid() && 1 <= id <= |bindings.services| && !Imported(bindings.services[id - 1])
      ensures var h, phase := holders[id - 1], bindings.services[id - 1].state.phase;
              && OnlyHolder(kernel.receivers, id, h) && OnlyHolder(kernel.eventHolders, id, h)
              && (PermitsBufferView(phase) ==> h == BoundOwner(id) && Holding(id, h) in kernel.receivers)
              && (phase.Quiesced? ==> NoHolder(kernel.receivers, id) && NoHolder(kernel.eventHolders, id))
    {
      assert ServiceOk(Snapshot(), id - 1);
    }

    /** The same process, and it alone, may have the Provider's view of the Service's buffers. */
    lemma ExclusiveView(i: nat)
      requires Valid() && i < SESSIONS && buffers.entries[i].Some?
      ensures 1 <= buffers.entries[i].value.service <= |bindings.services|
      ensures var b := buffers.entries[i].value;
              var h, phase := holders[b.service - 1], bindings.services[b.service - 1].state.phase;
              && (forall m :: m in PagesOf(kernel.mapped, b) ==> m.owner == b.client.owner || m.owner == h)
              && (phase.Quiesced? ==> forall m :: m in PagesOf(kernel.mapped, b) ==> m.owner == b.client.owner)
              && (Open(b) && (phase.Active? || phase.Prepared?) ==>
                    forall k :: 0 <= k < b.pages ==>
                      Mapped(h, b.provider.address + k * PAGE, b.physical + k) in kernel.mapped)
    {
      assert BufferOk(Snapshot(), i) && EntryAt(buffers.entries, buffers.backing, kernel.mapped, i);
      var b := buffers.entries[i].value;
      SeenByHolder(b, PagesOf(kernel.mapped, b), bindings.services[b.service - 1].state.phase, holders[b.service - 1]);
    }

    /** No page is mapped that no buffer records. */
    lemma EveryMappingIsRecorded(m: Mapped)
      requires Valid() && m in kernel.mapped
      ensures exists i :: 0 <= i < SESSIONS && buffers.entries[i].Some? && Tracks(buffers.entries[i].value, m)
    {
      var i := buffers.backing[m.page];
      assert PageAt(buffers.entries, buffers.backing, m.page);
      assert EntryAt(buffers.entries, buffers.backing, kernel.mapped, i);
      assert m in ViewAt(buffers.entries, kernel.mapped, i);
    }

    /** No page is mapped at an address that was not reserved for the process. */
    lemma EveryMappingIsReserved(m: Mapped)
      requires Valid() && m in kernel.mapped
      ensures exists span, k {:trigger InSpan(m, span, k)} :: span in kernel.reserved && InSpan(m, span, k)
    {
      var i := buffers.backing[m.page];
      assert PageAt(buffers.entries, buffers.backing, m.page) && ReservedAt(buffers.entries, kernel.reserved, i);
      assert EntryAt(buffers.entries, buffers.backing, kernel.mapped, i);
      assert m in ViewAt(buffers.entries, kernel.mapped, i);
      var b := buffers.entries[i].value;
      var p := if On(b.client, b.physical, m) then b.client else if On(b.provider, b.physical, m) then b.provider
               else b.candidate.value;
      assert InSpan(m, Span(p.owner, p.address, b.pages), m.page - b.physical);
    }
  }
}
