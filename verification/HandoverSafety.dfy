/** What the handover of a Service between Providers must keep, and why each of its steps keeps it. */
module HandoverSafety {
  import opened Options
  import opened Capabilities
  import opened KernelEffects
  import opened ServiceBindings
  import opened SessionBuffers
  import opened SessionEvents

  /** Everything the safety of the protocol depends on. `holders` names, for each Service, the one
      process that may hold its receiver and the Provider's view of its buffers. */
  datatype World = World(providers: seq<Provider>, services: seq<Service>, sessions: seq<Session>,
                         entries: seq<Option<Buffer>>, events: seq<Event>, clients: seq<Option<Client>>,
                         poisoned: seq<bool>, holders: seq<nat>,
                         mapped: set<Mapped>, receivers: set<Holding>, eventHolders: set<Holding>)

  ghost predicate OnlyHolder(held: set<Holding>, id: nat, owner: nat) {
    forall x :: x in held && x.service == id ==> x.owner == owner
  }

  ghost predicate NoHolder(held: set<Holding>, id: nat) {
    forall x :: x in held ==> x.service != id
  }

  /** The receiver and the event of a published Service. */
  ghost predicate Bound(sv: Service, e: Event, h: nat, boundOwner: nat, receivers: set<Holding>,
                        eventHolders: set<Holding>) {
    var id, phase := sv.state.service, sv.state.phase;
    && OnlyHolder(receivers, id, h) && OnlyHolder(eventHolders, id, h)
    && (!phase.Faulted? ==>
          && h == boundOwner && !e.faulted
          && (Holding(id, h) in receivers <==> PermitsBufferView(phase))
          && (e.receiver.Some? ==> e.receiver.value.owner == h && sv.profile == MANAGED_EVENT_PROFILE)
          && (Holding(id, h) in eventHolders <==> e.receiver.Some?)
          && (phase.Active? || phase.Prepared? ==> (e.receiver.Some? <==> sv.profile == MANAGED_EVENT_PROFILE))
          && (phase.Quiesced? ==> e.receiver.None?))
  }

  /** The Provider's side of one buffer of a published Service. */
  ghost predicate Shared(b: Buffer, exact: bool, phase: Phase, h: nat) {
    && (b.provider.installed > 0 ==> b.provider.owner == h)
    && (b.candidate.Some? ==> b.candidate.value.owner == h)
    && (!phase.Faulted? ==>
          && b.candidate.None?
          && (!Open(b) ==> b.client.installed == 0 && b.provider.installed == 0)
          && (Open(b) ==>
                && exact && b.client.installed == b.pages && b.provider.owner == h
                && (b.provider.installed == 0 || b.provider.installed == b.pages)
                && (phase.Active? || phase.Prepared? ==> b.provider.installed == b.pages)
                && (phase.Quiesced? ==> b.provider.installed == 0)))
  }

  ghost predicate ServiceOk(w: World, i: int) {
    0 <= i < |w.services| && !Imported(w.services[i]) ==>
      && i < |w.holders| && i < |w.events| && 1 <= w.services[i].provider <= |w.providers|
      && w.services[i].state.service == i + 1
      && Bound(w.services[i], w.events[i], w.holders[i], w.providers[w.services[i].provider - 1].owner, w.receivers,
               w.eventHolders)
  }

  ghost predicate BufferOk(w: World, i: int) {
    0 <= i < |w.entries| && w.entries[i].Some? ==>
      var b := w.entries[i].value;
      && i < |w.sessions| && w.sessions[i].service == b.service && 1 <= b.service <= |w.services|
      && b.service <= |w.holders|
      && !Imported(w.services[b.service - 1])
      && Shared(b, ExactAt(w.entries, w.mapped, i), w.services[b.service - 1].state.phase, w.holders[b.service - 1])
  }

  ghost predicate ClientOk(w: World, i: int) {
    0 <= i < |w.clients| && w.clients[i].Some? ==>
      i < |w.sessions| && w.clients[i].value.service == w.sessions[i].service
  }

  /** An identifier that was never published: unless it is poisoned, nothing is held under it. */
  ghost predicate FreshOk(w: World, i: int) {
    |w.services| <= i < |w.poisoned| && i < |w.events| && !w.poisoned[i] ==>
      && NoHolder(w.receivers, i + 1) && NoHolder(w.eventHolders, i + 1)
      && !w.events[i].faulted && w.events[i].receiver.None?
  }

  ghost predicate Safe(w: World) {
    && |w.holders| == |w.services| <= SERVICES && |w.events| == SERVICES && |w.poisoned| == SERVICES
    && |w.entries| == SESSIONS && |w.clients| == SESSIONS
    && (forall i {:trigger ServiceOk(w, i)} :: ServiceOk(w, i))
    && (forall i {:trigger BufferOk(w, i)} :: BufferOk(w, i))
    && (forall i {:trigger ClientOk(w, i)} :: ClientOk(w, i))
    && (forall i {:trigger FreshOk(w, i)} :: FreshOk(w, i))
  }

  // ---- steps of the tables alone ----

  ghost predicate PhaseMove(a: Phase, b: Phase) {
    || b.Faulted? || a == b
    || (a.Active? && b.Prepared?) || (a.Prepared? && b.Active?) || (a.Prepared? && b.Quiescing?)
  }

  ghost predicate Rephased(a: Service, b: Service) {
    b.provider == a.provider && b.profile == a.profile && b.state.service == a.state.service
    && PhaseMove(a.state.phase, b.state.phase)
  }

  ghost predicate OwnersKept(providers: seq<Provider>, providers': seq<Provider>) {
    |providers| <= |providers'| && forall k :: 0 <= k < |providers| ==> providers'[k].owner == providers[k].owner
  }

  ghost predicate SessionsKept(sessions: seq<Session>, sessions': seq<Session>) {
    |sessions| <= |sessions'| && forall k :: 0 <= k < |sessions| ==> sessions'[k].service == sessions[k].service
  }

  ghost predicate TablesMoved(w: World, w': World) {
    && w' == w.(providers := w'.providers, services := w'.services, sessions := w'.sessions)
    && OwnersKept(w.providers, w'.providers) && SessionsKept(w.sessions, w'.sessions)
    && |w'.services| == |w.services|
    && (forall i :: 0 <= i < |w.services| ==> Rephased(w.services[i], w'.services[i]))
  }

  /** Registering, preparing, quiescing, connecting, retiring and faulting keep the protocol safe. */
  lemma TablesKeepSafe(w: World, w': World)
    requires Safe(w) && TablesMoved(w, w')
    ensures Safe(w')
  {
    forall i ensures ServiceOk(w', i) && FreshOk(w', i) {
      assert ServiceOk(w, i) && FreshOk(w, i);
      if 0 <= i < |w.services| {
        assert Rephased(w.services[i], w'.services[i]);
      }
    }
    forall i ensures BufferOk(w', i) && ClientOk(w', i) {
      assert BufferOk(w, i) && ClientOk(w, i);
      if 0 <= i < |w.entries| && w.entries[i].Some? {
        var s := w.entries[i].value.service;
        assert Rephased(w.services[s - 1], w'.services[s - 1]);
      }
    }
  }

  // ---- what a step leaves alone ----

  /** Session `i` is one of the Service. */
  ghost predicate OfService(w: World, i: int, s: nat) {
    0 <= i < |w.sessions| && w.sessions[i].service == s
  }

  /** A session of another Service is as it was, its buffer and its connection too. */
  ghost predicate PlaceKept(w: World, w': World, s: nat, i: int) {
    0 <= i < SESSIONS && !OfService(w, i, s) && !OfService(w', i, s) ==>
      && (i < |w.sessions| <==> i < |w'.sessions|) && (i < |w.sessions| ==> w'.sessions[i] == w.sessions[i])
      && i < |w.clients| && i < |w'.clients| && w'.clients[i] == w.clients[i]
      && SameAt(w.entries, w.mapped, w'.entries, w'.mapped, i)
  }

  ghost predicate BindingKept(w: World, w': World, j: int) {
    0 <= j < |w.services| ==>
      && j < |w'.services| && j < |w.holders| && j < |w'.holders| && j < |w.events| && j < |w'.events|
      && w'.services[j] == w.services[j] && w'.holders[j] == w.holders[j] && w'.events[j] == w.events[j]
      && (forall x: Holding :: x.service == j + 1 ==> (x in w.receivers <==> x in w'.receivers))
      && (forall x: Holding :: x.service == j + 1 ==> (x in w.eventHolders <==> x in w'.eventHolders))
  }

  /** Whatever was published before, but for Service `s`, keeps its binding, its holder, its event and its
      sessions with their buffers, mappings and connections. */
  ghost predicate OnlyTouches(w: World, w': World, s: nat) {
    && SessionsKept(w.sessions, w'.sessions)
    && (forall j {:trigger BindingKept(w, w', j)} :: j != s - 1 ==> BindingKept(w, w', j))
    && (forall i {:trigger PlaceKept(w, w', s, i)} :: PlaceKept(w, w', s, i))
  }

  lemma TouchesNothing(w: World, s: nat)
    requires Safe(w)
    ensures OnlyTouches(w, w, s)
  {
  }

  lemma TouchesTwice(a: World, b: World, c: World, s: nat)
    requires OnlyTouches(a, b, s) && OnlyTouches(b, c, s) && |a.services| <= |b.services|
    ensures OnlyTouches(a, c, s)
  {
    forall j | j != s - 1 ensures BindingKept(a, c, j) {
      assert BindingKept(a, b, j) && BindingKept(b, c, j);
    }
    forall i ensures PlaceKept(a, c, s, i) {
      assert PlaceKept(a, b, s, i) && PlaceKept(b, c, s, i);
    }
  }

  /** A step that changes tables alone, and in them only what is of Service `s`. */
  lemma TablesTouch(w: World, w': World, s: nat)
    requires Safe(w) && w' == w.(providers := w'.providers, services := w'.services, sessions := w'.sessions)
    requires |w'.services| == |w.services| && SessionsKept(w.sessions, w'.sessions)
    requires forall j :: 0 <= j < |w.services| && j != s - 1 ==> w'.services[j] == w.services[j]
    requires forall i :: 0 <= i < |w'.sessions| && w'.sessions[i].service != s ==>
               i < |w.sessions| && w'.sessions[i] == w.sessions[i]
    ensures OnlyTouches(w, w', s)
  {
    forall i ensures PlaceKept(w, w', s, i) {
    }
  }

  /** A binding only changes its phase, or nothing changes. */
  lemma PhaseStep(w: World, w': World, id: nat, phase: Phase)
    requires Safe(w) && 1 <= id <= |w.services| && PhaseMove(w.services[id - 1].state.phase, phase)
    requires w' == w || w' == w.(services := w.services[id - 1 := WithPhase(w.services[id - 1], phase)])
    ensures Safe(w') && OnlyTouches(w, w', id)
  {
    TablesKeepSafe(w, w');
    TablesTouch(w, w', id);
  }

  /** One Service changes together with its buffers, its event and what is held of it. */
  ghost predicate OneServiceMoved(w: World, w': World, id: nat) {
    && 1 <= id <= |w.services| == |w.holders| && |w'.services| == |w.services| && |w'.holders| == |w.holders|
    && |w'.events| == |w.events| && |w'.entries| == |w.entries| && |w.events| == SERVICES
    && w'.sessions == w.sessions && w'.clients == w.clients && w'.poisoned == w.poisoned
    && OwnersKept(w.providers, w'.providers)
    && (forall i :: 0 <= i < |w.services| && i != id - 1 ==>
          w'.services[i] == w.services[i] && w'.holders[i] == w.holders[i])
    && (forall i :: 0 <= i < SERVICES && i != id - 1 ==> w'.events[i] == w.events[i])
    && (forall x: Holding :: x.service != id ==> (x in w.receivers <==> x in w'.receivers))
    && (forall x: Holding :: x.service != id ==> (x in w.eventHolders <==> x in w'.eventHolders))
  }

  /** Entries of other Services are as they were, and those of this one are in order. */
  ghost predicate EntryMoved(w: World, w': World, id: nat, i: int) {
    0 <= i < |w.entries| && i < |w'.entries| ==>
      if w'.entries[i].Some? && w'.entries[i].value.service == id then BufferOk(w', i)
      else SameAt(w.entries, w.mapped, w'.entries, w'.mapped, i)
  }

  lemma OneServiceKeepsSafe(w: World, w': World, id: nat)
    requires Safe(w) && OneServiceMoved(w, w', id) && ServiceOk(w', id - 1)
    requires forall i {:trigger EntryMoved(w, w', id, i)} :: EntryMoved(w, w', id, i)
    ensures Safe(w') && OnlyTouches(w, w', id)
  {
    forall i ensures ServiceOk(w', i) && FreshOk(w', i) {
      assert ServiceOk(w, i) && FreshOk(w, i);
      if 0 <= i < |w.services| && i != id - 1 && !Imported(w.services[i]) {
        assert OnlyHolder(w'.receivers, i + 1, w.holders[i]) && OnlyHolder(w'.eventHolders, i + 1, w.holders[i]);
      }
    }
    forall i ensures BufferOk(w', i) && ClientOk(w', i) && PlaceKept(w, w', id, i) {
      assert BufferOk(w, i) && ClientOk(w, i) && EntryMoved(w, w', id, i);
    }
  }

  /** Only the event of one Service moved, and its binding may have faulted. */
  lemma EventMoved(w: World, w': World, id: nat)
    requires Safe(w) && 1 <= id <= |w.services| && ServiceOk(w', id - 1)
    requires w' == w.(services := w'.services, events := w'.events, eventHolders := w'.eventHolders)
    requires w'.services == w.services || w'.services == w.services[id - 1 := WithPhase(w.services[id - 1], Faulted)]
    requires |w'.events| == |w.events| && w'.events == w.events[id - 1 := w'.events[id - 1]]
    requires forall x: Holding :: x.service != id ==> (x in w.eventHolders <==> x in w'.eventHolders)
    ensures Safe(w') && OnlyTouches(w, w', id)
  {
    forall i ensures EntryMoved(w, w', id, i) {
      assert BufferOk(w, i);
    }
    OneServiceKeepsSafe(w, w', id);
  }

  /** The Provider's views of one Service were withdrawn, or the attempt faulted its binding. */
  lemma BuffersWithdrawn(w: World, w': World, id: nat, owner: nat)
    requires Safe(w) && 1 <= id <= |w.services| && !Imported(w.services[id - 1])
    requires w.services[id - 1].state.phase.Quiescing?
    requires w' == w.(services := w'.services, entries := w'.entries, mapped := w'.mapped) && |w'.entries| == SESSIONS
    requires forall i {:trigger ShrunkAt(w.entries, w.mapped, w'.entries, w'.mapped, id, i)} ::
               0 <= i < SESSIONS ==> ShrunkAt(w.entries, w.mapped, w'.entries, w'.mapped, id, i)
    requires || w'.services == w.services[id - 1 := WithPhase(w.services[id - 1], Faulted)]
             || (&& w'.services == w.services
                 && forall i {:trigger WithdrawnAt(w.entries, w.mapped, w'.entries, w'.mapped, id, owner, i)} ::
                      0 <= i < SESSIONS ==> WithdrawnAt(w.entries, w.mapped, w'.entries, w'.mapped, id, owner, i))
    ensures Safe(w') && OnlyTouches(w, w', id)
  {
    assert ServiceOk(w, id - 1);
    forall i ensures EntryMoved(w, w', id, i) {
      assert BufferOk(w, i);
      if 0 <= i < SESSIONS {
        assert ShrunkAt(w.entries, w.mapped, w'.entries, w'.mapped, id, i);
        assert w'.services == w.services ==> WithdrawnAt(w.entries, w.mapped, w'.entries, w'.mapped, id, owner, i);
      }
    }
    OneServiceKeepsSafe(w, w', id);
  }

  /** No Provider sees an open buffer of the Service. */
  ghost predicate Unseen(entries: seq<Option<Buffer>>, id: nat) {
    forall i :: 0 <= i < |entries| && Involved(entries[i], id) ==> entries[i].value.provider.installed == 0
  }

  /** The receiver was revoked, or the attempt failed. */
  lemma ReceiverRevoked(w: World, w': World, id: nat)
    requires Safe(w) && 1 <= id <= |w.services| && !Imported(w.services[id - 1])
    requires w.services[id - 1].state.phase.Quiescing?
    requires w.events[id - 1].receiver.None? && Unseen(w.entries, id)
    requires w' == w.(services := w'.services, receivers := w'.receivers)
    requires var sv, gone := w.services[id - 1], w.receivers - {Holding(id, w.holders[id - 1])};
             || (w'.services == w.services[id - 1 := WithPhase(sv, Quiesced)] && w'.receivers == gone)
             || (w'.services == w.services[id - 1 := WithPhase(sv, Faulted)]
                 && (w'.receivers == w.receivers || w'.receivers == gone))
             || (w'.services == w.services && w'.receivers == w.receivers)
    ensures Safe(w') && OnlyTouches(w, w', id)
  {
    assert ServiceOk(w, id - 1);
    forall i ensures EntryMoved(w, w', id, i) {
      assert BufferOk(w, i);
    }
    OneServiceKeepsSafe(w, w', id);
  }

  /** What an installation for `owner` may change apart from the binding itself. */
  ghost predicate InstallationMoved(w: World, w': World, id: nat, owner: nat) {
    && 1 <= id <= |w.services| == |w.holders| && |w.events| == SERVICES == |w'.events| && |w.services| <= SERVICES
    && |w'.entries| == |w.entries| == SESSIONS
    && OwnersKept(w.providers, w'.providers) && |w'.services| == |w.services|
    && w' == w.(providers := w'.providers, services := w.services[id - 1 := w'.services[id - 1]], entries := w'.entries,
                events := w.events[id - 1 := w'.events[id - 1]], holders := w.holders[id - 1 := owner],
                mapped := w'.mapped, receivers := w'.receivers, eventHolders := w'.eventHolders)
    && (w'.receivers == w.receivers || w'.receivers == w.receivers + {Holding(id, owner)})
    && (w'.eventHolders == w.eventHolders || w'.eventHolders == w.eventHolders + {Holding(id, owner)})
  }

  /** What the effects of an installation did, before the binding takes notice. */
  ghost predicate InstallResult(w: World, w': World, id: nat, p: Provider, r: Status) {
    var h := Holding(id, p.owner);
    && 1 <= id <= |w.events| == |w'.events| && |w.entries| == |w'.entries| == SESSIONS
    && w' == w.(entries := w'.entries, events := w.events[id - 1 := w'.events[id - 1]], mapped := w'.mapped,
                receivers := w'.receivers, eventHolders := w'.eventHolders)
    && (r.Ok? ==>
          && !w'.events[id - 1].faulted && (w'.events[id - 1].receiver.Some? <==> p.profile == MANAGED_EVENT_PROFILE)
          && (w'.events[id - 1].receiver.Some? ==> w'.events[id - 1].receiver.value.owner == p.owner)
          && w'.receivers == w.receivers + {h}
          && w'.eventHolders == (if p.profile == MANAGED_EVENT_PROFILE then w.eventHolders + {h} else w.eventHolders)
          && forall j {:trigger InstalledAt(w.entries, w.mapped, w'.entries, w'.mapped, id, p.owner, j)} ::
               0 <= j < SESSIONS ==> InstalledAt(w.entries, w.mapped, w'.entries, w'.mapped, id, p.owner, j))
    && (r.Err? && !r.error.Fatal? ==> Unchanged(w, w', id))
    && (r.Err? ==>
          && (w'.receivers == w.receivers || w'.receivers == w.receivers + {h})
          && (w'.eventHolders == w.eventHolders || w'.eventHolders == w.eventHolders + {h})
          && forall j {:trigger DisturbedAt(w.entries, w.mapped, w'.entries, w'.mapped, id, p.owner, j)} ::
               0 <= j < SESSIONS ==> DisturbedAt(w.entries, w.mapped, w'.entries, w'.mapped, id, p.owner, j))
  }

  /** The binding takes notice of an installation. */
  lemma Notice(w: World, w1: World, w': World, id: nat, p: Provider, r: Status)
    requires InstallResult(w, w1, id, p, r) && 1 <= id <= |w.services| == |w.holders|
    requires |w.services| <= SERVICES == |w.events|
    requires NoHolder(w.eventHolders, id) && p.profile == w.services[id - 1].profile
    requires OwnersKept(w.providers, w'.providers) && |w'.services| == |w.services|
    requires r.Ok? || r.error.Fatal? ==>
               w' == w1.(providers := w'.providers, services := w.services[id - 1 := w'.services[id - 1]],
                         holders := w.holders[id - 1 := p.owner])
    requires r.Ok? ==>
               var sv := w'.services[id - 1];
               && sv.state.phase.Active? && sv.state.service == id && sv.profile == w.services[id - 1].profile
               && 1 <= sv.provider <= |w'.providers| && w'.providers[sv.provider - 1].owner == p.owner
    requires r == Err(Fatal) ==> w'.services[id - 1] == WithPhase(w.services[id - 1], Faulted)
    requires r.Err? && !r.error.Fatal? ==> w' == w1
    ensures Conclusion(w, w', id, p.owner, r) && BackingKept(w.entries, w'.entries)
  {
    InstallingKeepsBacking(w.entries, w.mapped, w1.entries, w1.mapped, id, p.owner);
  }

  ghost predicate Activated(w: World, w': World, id: nat, owner: nat) {
    && InstallationMoved(w, w', id, owner)
    && Holding(id, owner) in w'.receivers && !w'.events[id - 1].faulted
    && var sv, receiver := w'.services[id - 1], w'.events[id - 1].receiver;
       && sv.state.phase.Active? && sv.state.service == id && sv.profile == w.services[id - 1].profile
       && 1 <= sv.provider <= |w'.providers| && w'.providers[sv.provider - 1].owner == owner
       && (receiver.Some? <==> sv.profile == MANAGED_EVENT_PROFILE)
       && (receiver.Some? ==> receiver.value.owner == owner)
       && (receiver.Some? <==> Holding(id, owner) in w'.eventHolders)
       && forall i {:trigger InstalledAt(w.entries, w.mapped, w'.entries, w'.mapped, id, owner, i)} ::
            0 <= i < SESSIONS ==> InstalledAt(w.entries, w.mapped, w'.entries, w'.mapped, id, owner, i)
  }

  ghost predicate Broken(w: World, w': World, id: nat, owner: nat) {
    && InstallationMoved(w, w', id, owner) && w'.services[id - 1] == WithPhase(w.services[id - 1], Faulted)
    && forall i {:trigger DisturbedAt(w.entries, w.mapped, w'.entries, w'.mapped, id, owner, i)} ::
         0 <= i < SESSIONS ==> DisturbedAt(w.entries, w.mapped, w'.entries, w'.mapped, id, owner, i)
  }

  /** Apart from the creation of the event object nothing changed. */
  ghost predicate Unchanged(w: World, w': World, id: nat) {
    && 1 <= id <= |w'.events| == |w.events| && w' == w.(events := w.events[id - 1 := w'.events[id - 1]])
    && !w'.events[id - 1].faulted && w'.events[id - 1].receiver.None?
  }

  ghost predicate Conclusion(w: World, w': World, id: nat, owner: nat, r: Status) {
    match r
    case Ok => Activated(w, w', id, owner)
    case Err(Fatal) => Broken(w, w', id, owner)
    case Err(_) => Unchanged(w, w', id)
  }

  /** A quiesced Service became active under `owner`. */
  lemma Settled(w: World, w': World, id: nat, owner: nat)
    requires Safe(w) && Activated(w, w', id, owner)
    requires !Imported(w.services[id - 1]) && w.services[id - 1].state.phase.Quiesced?
    ensures Safe(w') && OnlyTouches(w, w', id)
  {
    assert ServiceOk(w, id - 1);
    NothingHeld(w, id);
    forall i ensures EntryMoved(w, w', id, i) {
      assert BufferOk(w, i);
      assert 0 <= i < SESSIONS ==> InstalledAt(w.entries, w.mapped, w'.entries, w'.mapped, id, owner, i);
    }
    OneServiceKeepsSafe(w, w', id);
  }

  /** Of a quiesced Service nothing is held by anybody. */
  lemma NothingHeld(w: World, id: nat)
    requires Safe(w) && 1 <= id <= |w.services| && !Imported(w.services[id - 1])
    requires w.services[id - 1].state.phase.Quiesced?
    ensures NoHolder(w.receivers, id) && NoHolder(w.eventHolders, id)
  {
    assert ServiceOk(w, id - 1);
  }

  /** An installation for `owner` failed and faulted the binding: only `owner` may hold anything. */
  lemma InstallFaulted(w: World, w': World, id: nat, owner: nat)
    requires Safe(w) && Broken(w, w', id, owner)
    requires !Imported(w.services[id - 1]) && w.services[id - 1].state.phase.Quiesced?
    ensures Safe(w') && OnlyTouches(w, w', id)
  {
    assert ServiceOk(w, id - 1);
    NothingHeld(w, id);
    forall i ensures EntryMoved(w, w', id, i) {
      assert BufferOk(w, i);
      assert 0 <= i < SESSIONS ==> DisturbedAt(w.entries, w.mapped, w'.entries, w'.mapped, id, owner, i);
    }
    OneServiceKeepsSafe(w, w', id);
  }

  /** A quiesced Service is ready for an installation. */
  lemma QuiescedReady(w: World, id: nat)
    requires Safe(w) && 1 <= id <= |w.services| && !Imported(w.services[id - 1])
    requires w.services[id - 1].state.phase.Quiesced?
    ensures !w.events[id - 1].faulted && w.events[id - 1].receiver.None?
    ensures NoHolder(w.receivers, id) && NoHolder(w.eventHolders, id)
    ensures forall j :: 0 <= j < SESSIONS ==> !HasCandidate(w.entries[j], id)
  {
    assert ServiceOk(w, id - 1);
    NothingHeld(w, id);
    forall j | 0 <= j < SESSIONS ensures !HasCandidate(w.entries[j], id) {
      assert BufferOk(w, j);
    }
  }

  /** An installation that was undone. */
  lemma Undone(w: World, w': World, id: nat)
    requires Safe(w) && 1 <= id <= |w.services| && !Imported(w.services[id - 1])
    requires w.services[id - 1].state.phase.Quiesced?
    requires Unchanged(w, w', id)
    ensures Safe(w') && OnlyTouches(w, w', id)
  {
    assert ServiceOk(w, id - 1);
    EventMoved(w, w', id);
  }

  /** Whatever an installation answered, the protocol is safe afterwards. */
  lemma Concluded(w: World, w': World, id: nat, owner: nat, r: Status)
    requires Safe(w) && 1 <= id <= |w.services| && !Imported(w.services[id - 1])
    requires w.services[id - 1].state.phase.Quiesced?
    requires Conclusion(w, w', id, owner, r)
    ensures Safe(w') && OnlyTouches(w, w', id)
  {
    if r.Ok? {
      Settled(w, w', id, owner);
    } else if r.error.Fatal? {
      InstallFaulted(w, w', id, owner);
    } else {
      Undone(w, w', id);
    }
  }

  lemma InstallingKeepsBacking(e0: seq<Option<Buffer>>, m0: set<Mapped>, e1: seq<Option<Buffer>>, m1: set<Mapped>,
                               id: nat, owner: nat)
    requires |e0| == |e1| == SESSIONS
    requires || (forall i {:trigger InstalledAt(e0, m0, e1, m1, id, owner, i)} ::
                   0 <= i < SESSIONS ==> InstalledAt(e0, m0, e1, m1, id, owner, i))
             || (forall i {:trigger DisturbedAt(e0, m0, e1, m1, id, owner, i)} ::
                   0 <= i < SESSIONS ==> DisturbedAt(e0, m0, e1, m1, id, owner, i))
    ensures BackingKept(e0, e1)
  {
    forall i | 0 <= i < SESSIONS && e0[i].Some?
      ensures e1[i].Some?
      ensures e1[i].value == e0[i].value.(provider := e1[i].value.provider, candidate := e1[i].value.candidate)
    {
      assert InstalledAt(e0, m0, e1, m1, id, owner, i) || DisturbedAt(e0, m0, e1, m1, id, owner, i);
    }
  }

  /** A publication that failed: its identifier is untouched, or poisoned for good. */
  ghost predicate Refused(w: World, w': World, i: nat) {
    && |w.services| <= i < SERVICES && FreshOk(w', i)
    && w' == w.(events := w'.events, poisoned := w'.poisoned, receivers := w'.receivers,
                eventHolders := w'.eventHolders)
    && |w.events| == |w.poisoned| == |w'.events| == |w'.poisoned| == SERVICES
    && (forall k :: 0 <= k < SERVICES && k != i ==> w'.events[k] == w.events[k] && w'.poisoned[k] == w.poisoned[k])
    && (forall x: Holding :: x.service != i + 1 ==> (x in w.receivers <==> x in w'.receivers))
    && (forall x: Holding :: x.service != i + 1 ==> (x in w.eventHolders <==> x in w'.eventHolders))
  }

  lemma PublishFailed(w: World, w': World, i: nat)
    requires Safe(w) && Refused(w, w', i)
    ensures Safe(w') && OnlyTouches(w, w', 0)
  {
    forall k ensures ServiceOk(w', k) && FreshOk(w', k) {
      assert ServiceOk(w, k) && FreshOk(w, k);
      if 0 <= k < |w.services| && !Imported(w.services[k]) {
        assert OnlyHolder(w'.receivers, k + 1, w.holders[k]) && OnlyHolder(w'.eventHolders, k + 1, w.holders[k]);
      }
    }
    forall k ensures BufferOk(w', k) && ClientOk(w', k) {
      assert BufferOk(w, k) && ClientOk(w, k);
    }
  }

  /** One entry of the Service changed, and its binding may have faulted. */
  ghost predicate OneEntryMoved(w: World, w': World, id: nat, slot: nat) {
    && 1 <= id <= |w.services| && slot < SESSIONS && |w.entries| == |w'.entries| == SESSIONS
    && w' == w.(services := w'.services, entries := w'.entries, mapped := w'.mapped)
    && (w'.services == w.services || w'.services == w.services[id - 1 := WithPhase(w.services[id - 1], Faulted)])
    && w'.entries[slot].Some? && w'.entries[slot].value.service == id
    && (forall j {:trigger SameAt(w.entries, w.mapped, w'.entries, w'.mapped, j)} ::
          0 <= j < SESSIONS && j != slot ==> SameAt(w.entries, w.mapped, w'.entries, w'.mapped, j))
  }

  lemma OneEntryKeepsSafe(w: World, w': World, id: nat, slot: nat)
    requires Safe(w) && OneEntryMoved(w, w', id, slot) && BufferOk(w', slot)
    ensures Safe(w') && OnlyTouches(w, w', id)
  {
    assert ServiceOk(w, id - 1);
    forall i ensures EntryMoved(w, w', id, i) {
      assert BufferOk(w, i);
      assert 0 <= i < SESSIONS && i != slot ==> SameAt(w.entries, w.mapped, w'.entries, w'.mapped, i);
    }
    OneServiceKeepsSafe(w, w', id);
  }

  /** A session's buffer was created, or its creation was recorded as failed. */
  lemma BufferCreated(w: World, w': World, id: nat, client: nat, slot: nat, ok: bool, fatal: bool)
    requires Safe(w) && OneEntryMoved(w, w', id, slot) && !Imported(w.services[id - 1])
    requires w.services[id - 1].state.phase.Active? || w.services[id - 1].state.phase.Prepared?
    requires slot < |w.sessions| && w.sessions[slot].service == id
    requires (fatal ==> w'.services[id - 1].state.phase.Faulted?)
    requires CreatedAt(w.entries, w'.entries, w'.mapped, id, client, w.holders[id - 1], ok, fatal, slot)
    ensures Safe(w') && OnlyTouches(w, w', id)
  {
    OneEntryKeepsSafe(w, w', id, slot);
  }

  /** A session's buffer was closed, or the attempt faulted the binding. */
  lemma BufferClosed(w: World, w': World, id: nat, slot: nat, r: Status)
    requires Safe(w) && OneEntryMoved(w, w', id, slot) && w.entries[slot].Some? && w.entries[slot].value.service == id
    requires !w.entries[slot].value.closed ==>
              w.services[id - 1].state.phase.Quiesced? || w.services[id - 1].state.phase.Faulted?
    requires ClosedAt(w.entries, w'.entries, r, slot)
    requires r.Ok? || w'.services[id - 1].state.phase.Faulted?
    ensures Safe(w') && OnlyTouches(w, w', id)
  {
    assert BufferOk(w, slot);
    OneEntryKeepsSafe(w, w', id, slot);
  }

  /** No Provider sees the buffer of a session that may be closed. */
  lemma ClosingEntry(w: World, i: nat, s: nat)
    requires Safe(w) && i < SESSIONS && i < |w.sessions| && w.sessions[i].service == s && 1 <= s <= |w.services|
    requires w.entries[i].Some? && !w.entries[i].value.closed ==> w.services[s - 1].state.phase.Quiesced?
    ensures w.entries[i].Some? ==>
              && w.entries[i].value.service == s
              && (!w.services[s - 1].state.phase.Faulted? ==>
                    w.entries[i].value.provider.installed == 0 && w.entries[i].value.candidate.None?)
  {
    assert BufferOk(w, i);
  }

  /** Whatever closing a buffer answers, the protocol stays safe. */
  lemma CloseStep(w: World, w': World, s: nat, i: nat, r: Status)
    requires Safe(w) && i < SESSIONS && i < |w.sessions| && w.sessions[i].service == s && 1 <= s <= |w.services|
    requires w.entries[i].Some? && !w.entries[i].value.closed ==> w.services[s - 1].state.phase.Quiesced?
    requires w' == w.(services := w'.services, entries := w'.entries, mapped := w'.mapped) && |w'.entries| == SESSIONS
    requires w'.services == if r == Err(Fatal) then w.services[s - 1 := WithPhase(w.services[s - 1], Faulted)]
                            else w.services
    requires ClosedAt(w.entries, w'.entries, r, i)
    requires (r.Err? && !r.error.Fatal?) || w.entries[i].None? ==> w'.entries == w.entries && w'.mapped == w.mapped
    requires forall j {:trigger SameAt(w.entries, w.mapped, w'.entries, w'.mapped, j)} ::
               0 <= j < SESSIONS && j != i ==> SameAt(w.entries, w.mapped, w'.entries, w'.mapped, j)
    ensures Safe(w') && BackingKept(w.entries, w'.entries) && OnlyTouches(w, w', s)
  {
    hide BufferOk, ServiceOk, ClientOk, FreshOk;
    ClosingEntry(w, i, s);
    if w.entries[i].Some? && (r.Ok? || r.error.Fatal?) {
      OneEntryKeepsBacking(w.entries, w.mapped, w'.entries, w'.mapped, i);
      BufferClosed(w, w', s, i, r);
    } else {
      TablesKeepSafe(w, w');
      TablesTouch(w, w', s);
    }
  }

  /** Only notification clients of existing sessions changed. */
  lemma ClientsMoved(w: World, w': World, s: nat)
    requires Safe(w) && w' == w.(clients := w'.clients) && |w'.clients| == SESSIONS
    requires forall i :: 0 <= i < SESSIONS && w'.clients[i] != w.clients[i] ==>
               OfService(w, i, s) && (w'.clients[i].Some? ==> w'.clients[i].value.service == s)
    ensures Safe(w') && OnlyTouches(w, w', s)
  {
    forall i
      ensures ServiceOk(w', i) && FreshOk(w', i) && BufferOk(w', i) && ClientOk(w', i) && PlaceKept(w, w', s, i)
    {
      assert ServiceOk(w, i) && FreshOk(w, i) && BufferOk(w, i) && ClientOk(w, i);
    }
  }

  /** A session's connection changed, and the binding may have faulted together with the event. */
  lemma ConnectionMoved(w: World, w': World, s: nat)
    requires Safe(w) && 1 <= s <= |w.services| && |w'.clients| == SESSIONS
    requires w' == w.(services := w'.services, events := w'.events, clients := w'.clients)
    requires forall i :: 0 <= i < SESSIONS && w'.clients[i] != w.clients[i] ==>
               OfService(w, i, s) && (w'.clients[i].Some? ==> w'.clients[i].value.service == s)
    requires w'.services == w.services || w'.services == w.services[s - 1 := WithPhase(w.services[s - 1], Faulted)]
    requires w'.events == w.events || (w'.events == w.events[s - 1 := w.events[s - 1].(faulted := true)]
                                       && w'.services[s - 1].state.phase.Faulted?)
    ensures Safe(w') && OnlyTouches(w, w', s)
  {
    var w1 := w.(clients := w'.clients);
    ClientsMoved(w, w1, s);
    assert ServiceOk(w1, s - 1);
    EventMoved(w1, w', s);
    TouchesTwice(w, w1, w', s);
  }

  /** A session's buffer never moves: not its pages, and not the client's address for them. */
  ghost predicate BackingKept(entries: seq<Option<Buffer>>, entries': seq<Option<Buffer>>) {
    && |entries'| == |entries|
    && forall i :: 0 <= i < |entries| && entries[i].Some? ==>
         && entries'[i].Some?
         && var a, b := entries[i].value, entries'[i].value;
            && b.service == a.service && b.physical == a.physical && b.pages == a.pages
            && b.client.owner == a.client.owner && b.client.address == a.client.address
  }

  lemma OneEntryKeepsBacking(e0: seq<Option<Buffer>>, m0: set<Mapped>, e1: seq<Option<Buffer>>, m1: set<Mapped>,
                             slot: nat)
    requires |e0| == |e1| == SESSIONS && slot < SESSIONS
    requires forall j {:trigger SameAt(e0, m0, e1, m1, j)} ::
              0 <= j < SESSIONS && j != slot ==> SameAt(e0, m0, e1, m1, j)
    requires e0[slot].Some? ==>
               && e1[slot].Some?
               && var (b, b') := (e0[slot].value, e1[slot].value);
                  b' == b.(client := b.client.(installed := b'.client.installed), closed := b'.closed)
    ensures BackingKept(e0, e1)
  {
    forall i | 0 <= i < SESSIONS && i != slot ensures e1[i] == e0[i] {
      assert SameAt(e0, m0, e1, m1, i);
    }
  }

  lemma ShrinkingKeepsBacking(e0: seq<Option<Buffer>>, m0: set<Mapped>, e1: seq<Option<Buffer>>, m1: set<Mapped>,
                              id: nat)
    requires |e0| == |e1| == SESSIONS
    requires forall i {:trigger ShrunkAt(e0, m0, e1, m1, id, i)} ::
              0 <= i < SESSIONS ==> ShrunkAt(e0, m0, e1, m1, id, i)
    ensures BackingKept(e0, e1)
  {
    forall i | 0 <= i < SESSIONS && e0[i].Some?
      ensures e1[i].Some? && e1[i].value == e0[i].value.(provider := e1[i].value.provider)
    {
      assert ShrunkAt(e0, m0, e1, m1, id, i);
    }
  }

  lemma WithdrawnIsUnseen(e0: seq<Option<Buffer>>, m0: set<Mapped>, e1: seq<Option<Buffer>>, m1: set<Mapped>, id: nat,
                          owner: nat)
    requires |e0| == |e1| == SESSIONS
    requires forall i {:trigger WithdrawnAt(e0, m0, e1, m1, id, owner, i)} ::
              0 <= i < SESSIONS ==> WithdrawnAt(e0, m0, e1, m1, id, owner, i)
    ensures Unseen(e1, id)
  {
    forall i | 0 <= i < SESSIONS && Involved(e1[i], id) ensures e1[i].value.provider.installed == 0 {
      assert WithdrawnAt(e0, m0, e1, m1, id, owner, i);
    }
  }

  lemma Transitive(a: seq<Service>, b: seq<Service>, c: seq<Service>, n: map<Name, nat>, o: map<Name, nat>,
                   p: map<Name, nat>,
                   e: seq<Option<Buffer>>, f: seq<Option<Buffer>>, g: seq<Option<Buffer>>)
    requires AllAdvance(a, b) && AllAdvance(b, c) && NamesGrow(n, o) && NamesGrow(o, p) && BackingKept(e, f)
    requires BackingKept(f, g)
    ensures AllAdvance(a, c) && NamesGrow(n, p) && BackingKept(e, g)
  {
    forall i | 0 <= i < |a| ensures Advances(a[i], c[i]) {
      assert Advances(a[i], b[i]) && Advances(b[i], c[i]);
    }
  }

  lemma SeenByHolder(b: Buffer, pages: set<Mapped>, phase: Phase, h: nat)
    requires Tracked(b, pages) && Shared(b, Exact(b, pages), phase, h)
    ensures forall m :: m in pages ==> m.owner == b.client.owner || m.owner == h
    ensures phase.Quiesced? ==> forall m :: m in pages ==> m.owner == b.client.owner
    ensures Open(b) && (phase.Active? || phase.Prepared?) ==>
              forall k :: 0 <= k < b.pages ==> Mapped(h, b.provider.address + k * PAGE, b.physical + k) in pages
  {
    forall k | 0 <= k < b.pages && b.provider.installed == b.pages
      ensures Tracks(b, Mapped(b.provider.owner, b.provider.address + k * PAGE, b.physical + k))
    {
    }
  }

  /** What giving a Service to a Provider needs. */
  predicate Takes(entries: seq<Option<Buffer>>, id: nat, p: Provider) {
    p.owner != 0 && Eventful(p) && forall j :: 0 <= j < |entries| ==> Stageable(entries[j], id, p.owner)
  }

  /** The process is not the client of an open buffer of the Service. */
  predicate NoClient(entries: seq<Option<Buffer>>, id: nat, owner: nat) {
    forall j :: 0 <= j < |entries| && Involved(entries[j], id) ==> entries[j].value.client.owner != owner
  }

  /** A quiesced Service can be given to every Provider that is no client of one of its buffers. */
  lemma QuiescedTakes(w: World, id: nat, p: Provider)
    requires Safe(w) && 1 <= id <= |w.services| && !Imported(w.services[id - 1])
    requires w.services[id - 1].state.phase.Quiesced?
    requires p.owner != 0 && Eventful(p) && NoClient(w.entries, id, p.owner)
    ensures Takes(w.entries, id, p)
  {
    forall j | 0 <= j < |w.entries| ensures Stageable(w.entries[j], id, p.owner) {
      assert BufferOk(w, j);
    }
  }

  /** The Provider that a Service is bound to is none. */
  lemma BoundIsNoClient(w: World, backing: map<nat, nat>, id: nat)
    requires Safe(w) && 1 <= id <= |w.services| && !Imported(w.services[id - 1])
    requires w.services[id - 1].state.phase.Quiesced?
    requires AllTracked(w.entries, backing, w.mapped)
    ensures 1 <= w.services[id - 1].provider <= |w.providers|
    ensures NoClient(w.entries, id, w.providers[w.services[id - 1].provider - 1].owner)
  {
    assert ServiceOk(w, id - 1);
    forall j | 0 <= j < |w.entries| && Involved(w.entries[j], id)
      ensures w.entries[j].value.client.owner != w.holders[id - 1]
    {
      assert BufferOk(w, j) && EntryAt(w.entries, backing, w.mapped, j);
    }
  }

  /** A Service is appended: imported, or published with everything it needs in place. */
  ghost predicate Added(w: World, w': World) {
    && |w'.services| == |w.services| + 1 <= SERVICES && w'.services[..|w.services|] == w.services
    && |w'.holders| == |w.holders| + 1 == |w'.services| && w'.holders[..|w.holders|] == w.holders
    && OwnersKept(w.providers, w'.providers) && ServiceOk(w', |w.services|)
    && |w.events| == |w'.events| == SERVICES
    && (forall i :: 0 <= i < SERVICES && i != |w.services| ==> w'.events[i] == w.events[i])
    && (forall x: Holding :: x.service != |w.services| + 1 ==> (x in w.receivers <==> x in w'.receivers))
    && (forall x: Holding :: x.service != |w.services| + 1 ==> (x in w.eventHolders <==> x in w'.eventHolders))
    && w' == w.(providers := w'.providers, services := w'.services, events := w'.events, holders := w'.holders,
                receivers := w'.receivers, eventHolders := w'.eventHolders)
  }

  lemma ServiceAdded(w: World, w': World)
    requires Safe(w) && Added(w, w')
    ensures Safe(w') && OnlyTouches(w, w', 0)
  {
    forall i ensures ServiceOk(w', i) && FreshOk(w', i) {
      assert ServiceOk(w, i) && FreshOk(w, i);
      if 0 <= i < |w.services| {
        assert w'.services[i] == w'.services[..|w.services|][i] && w'.holders[i] == w'.holders[..|w.holders|][i];
        assert !Imported(w.services[i]) ==>
                 OnlyHolder(w'.receivers, i + 1, w.holders[i]) && OnlyHolder(w'.eventHolders, i + 1, w.holders[i]);
      }
    }
    forall i ensures BufferOk(w', i) && ClientOk(w', i) {
      assert BufferOk(w, i) && ClientOk(w, i);
      if 0 <= i < |w.entries| && w.entries[i].Some? {
        var k := w.entries[i].value.service - 1;
        assert w'.services[k] == w'.services[..|w.services|][k] && w'.holders[k] == w'.holders[..|w.holders|][k];
      }
    }
  }
}
