/** What each request of the handover protocol may do, to whom, and on whose behalf, in terms of the tables. */
module HandoverRequests {
  import opened Options
  import opened Capabilities
  import opened KernelEffects
  import opened ServiceBindings
  import opened SessionBuffers
  import opened SessionEvents
  import opened HandoverSafety

  datatype Request =
    | Register(caller: nat, interface: nat, raw: nat, notification: nat, profile: nat)
    | Publish(admin: bool, caller: nat, provider: nat)
    | Import(sessionLimit: nat)
    | Connect(owner: SessionOwner, service: nat, slot: nat)
    | Prepare(admin: bool, caller: nat, service: nat, generation: nat, next: nat)
    | Quiesce(admin: bool, caller: nat, service: nat, generation: nat, slot: nat)
    | Acknowledge(caller: nat, provider: nat, generation: nat)
    | Commit(admin: bool, caller: nat, service: nat, generation: nat)
    | Abort(admin: bool, caller: nat, service: nat, generation: nat)
    | Close(caller: nat, session: nat)
    | Retire(caller: nat, provider: nat)
    | BufferCreate(caller: nat, session: nat, bytes: nat)
    | EventConnect(caller: nat, session: nat, slot: nat)

  datatype Reply = Done | Number(value: nat) | Seen(view: View) | Denied(error: CapabilityError)

  // ---- on whose behalf ----

  /** An administrator speaks about a Service that it manages, and about its current generation. */
  ghost predicate Manages(w: World, admin: bool, caller: nat, id: nat, generation: nat) {
    && admin && caller != 0 && 1 <= id <= |w.services|
    && w.services[id - 1].manager == caller && w.services[id - 1].state.generation == generation
  }

  ghost predicate Live(w: World, p: nat) {
    1 <= p <= |w.providers| && !w.providers[p - 1].retired
  }

  /** The place of a session in the tables. */
  ghost function Place(id: nat): int {
    id - 0x8000_0000_0000_0000 - 1
  }

  ghost predicate HasSession(w: World, id: nat) {
    0 <= Place(id) < |w.sessions| && |w.sessions| <= SESSIONS && |w.entries| == |w.clients| == SESSIONS
    && 1 <= w.sessions[Place(id)].service <= |w.services|
  }

  /** The caller speaks about a session of its own. */
  ghost predicate OwnsSession(w: World, caller: nat, id: nat) {
    HasSession(w, id) && w.sessions[Place(id)].owner == Process(caller)
  }

  ghost function ServiceOf(w: World, id: nat): Service
    requires HasSession(w, id)
  {
    w.services[w.sessions[Place(id)].service - 1]
  }

  /** The caller is the Provider that its Service is bound to, and is asked to stop. */
  ghost predicate Stopping(w: World, caller: nat, id: nat, generation: nat) {
    && Live(w, id) && w.providers[id - 1].owner == caller && w.providers[id - 1].service.Some?
    && var s := w.providers[id - 1].service.value;
       && 1 <= s <= |w.services| && w.services[s - 1].provider == id
       && w.services[s - 1].state.generation == generation && w.services[s - 1].state.phase.Quiescing?
  }

  // ---- what is answered, and what has happened then ----

  ghost predicate RegisterAnswer(w: World, w': World, caller: nat, interface: nat, raw: nat, notification: nat,
                                 profile: nat, r: Outcome<nat>, failed: bool) {
    var slots := ProviderSlots(profile, raw, notification);
    var known := exists p :: Live(w, p) && w.providers[p - 1].owner == caller;
    && w' == w.(providers := w'.providers) && w.providers <= w'.providers
    && (w'.providers != w.providers ==> r == Value(|w.providers| + 1) && |w'.providers| == r.value && !known)
    && (r.Value? ==>
          && slots.Some? && caller != 0 && interface != 0 && Live(w', r.value)
          && Registers(w'.providers[r.value - 1], caller, interface, profile, slots.value.0, notification,
                       slots.value.1))
    && (slots.Some? && caller != 0 && interface != 0 && !known && |w.providers| < PROVIDERS ==> r.Value? || failed)
    && (slots.Some? && caller != 0 && interface != 0 ==>
          var (receiver, event) := slots.value;
          (exists p :: Live(w, p)
             && Registers(w.providers[p - 1], caller, interface, profile, receiver, notification, event)) ==> r.Value?)
  }

  ghost predicate MayPublish(w: World, admin: bool, caller: nat, provider: nat) {
    admin && caller != 0 && Live(w, provider) && w.providers[provider - 1].service.None? && |w.services| < SERVICES
  }

  ghost predicate PublishAnswer(w: World, w': World, admin: bool, caller: nat, provider: nat, r: Outcome<nat>,
                                failed: bool) {
    && (!MayPublish(w, admin, caller, provider) ==> r.Error? && w' == w)
    && (r.Value? ==>
          && r.value == |w.services| + 1
          && w'.services == w.services + [Service(caller, provider, None, BindingState(r.value, 1, Active), SESSIONS,
                                                  w.providers[provider - 1].profile)]
          && w'.providers == w.providers[provider - 1 := w.providers[provider - 1].(service := Some(r.value))])
    && (r.Error? ==> w'.services == w.services && w'.providers == w.providers)
    && (MayPublish(w, admin, caller, provider) && |w.services| < |w.poisoned| && !w.poisoned[|w.services|] ==>
          r.Value? || failed)
  }

  ghost predicate ImportAnswer(w: World, w': World, sessionLimit: nat, r: Outcome<nat>) {
    && (r.Value? <==> 1 <= sessionLimit <= SESSIONS && |w.services| < SERVICES)
    && (r.Value? ==>
          && r.value == |w.services| + 1
          && w' == w.(services := w.services + [Service(0, 0, None, BindingState(r.value, 1, Active), sessionLimit,
                                                        STATELESS_CONTROL_PROFILE)],
                      holders := w'.holders))
    && (r.Error? ==> w' == w)
  }

  ghost predicate MayConnect(w: World, id: nat) {
    && 1 <= id <= |w.services| && !w.services[id - 1].state.phase.Faulted? && |w.sessions| < SESSIONS
    && SessionsOf(w.sessions, id) < w.services[id - 1].sessionLimit
  }

  ghost predicate ConnectAnswer(w: World, w': World, owner: SessionOwner, id: nat, slot: nat, r: Outcome<nat>,
                                failed: bool) {
    && (MayConnect(w, id) ==> r.Value? || failed)
    && (!MayConnect(w, id) ==> r.Error?)
    && (r.Value? ==>
          && r.value == 0x8000_0000_0000_0000 + |w'.sessions|
          && w' == w.(sessions := w.sessions + [Session(owner, slot, id, false)]))
    && (r.Error? ==>
          w' == if MayConnect(w, id) && r.error.Fatal? then
                  w.(services := w.services[id - 1 := WithPhase(w.services[id - 1], Faulted)],
                     sessions := w.sessions + [Session(owner, slot, id, true)])
                else w)
  }

  ghost predicate MayPrepare(w: World, admin: bool, caller: nat, id: nat, generation: nat, next: nat) {
    && Manages(w, admin, caller, id, generation) && w.services[id - 1].state.phase.Active?
    && Live(w, next) && w.providers[next - 1].service.None? && 1 <= w.services[id - 1].provider <= |w.providers|
    && w.providers[next - 1].interface == w.providers[w.services[id - 1].provider - 1].interface
    && w.providers[next - 1].profile == w.services[id - 1].profile && generation < MAX_GENERATION
  }

  ghost predicate PrepareAnswer(w: World, w': World, admin: bool, caller: nat, id: nat, generation: nat, next: nat,
                                r: Status) {
    && (r.Ok? <==> MayPrepare(w, admin, caller, id, generation, next))
    && w' == if r.Ok? then
               w.(providers := w.providers[next - 1 := w.providers[next - 1].(service := Some(id))],
                  services := w.services[id - 1 := WithPhase(w.services[id - 1], Prepared).(pending := Some(next))])
             else w
  }

  ghost predicate QuiesceAnswer(w: World, w': World, admin: bool, caller: nat, id: nat, generation: nat, r: Status) {
    && (r.Ok? ==> Manages(w, admin, caller, id, generation) && w.services[id - 1].state.phase.Prepared?)
    && w' == if r.Ok? then w.(services := w.services[id - 1 := WithPhase(w.services[id - 1], Quiescing)]) else w
  }

  ghost predicate AcknowledgeAnswer(w: World, w': World, caller: nat, id: nat, generation: nat, r: Status,
                                    failed: bool) {
    if !Stopping(w, caller, id, generation) then r.Err? && w' == w
    else
      var s := w.providers[id - 1].service.value;
      && (r.Err? ==> failed)
      && w'.services == (if r.Ok? then w.services[s - 1 := WithPhase(w.services[s - 1], Quiesced)]
                         else if r.error.Fatal? then w.services[s - 1 := WithPhase(w.services[s - 1], Faulted)]
                         else w'.services)
      && (w'.services != w.services ==>
            w'.services == w.services[s - 1 := WithPhase(w.services[s - 1], if r.Ok? then Quiesced else Faulted)])
      && w'.providers == w.providers
  }

  ghost predicate MayCommit(w: World, admin: bool, caller: nat, id: nat, generation: nat) {
    Manages(w, admin, caller, id, generation) && w.services[id - 1].state.phase.Quiesced?
  }

  ghost predicate CommitAnswer(w: World, w': World, admin: bool, caller: nat, id: nat, generation: nat, r: Status) {
    if !MayCommit(w, admin, caller, id, generation) then r.Err? && w' == w
    else
      var sv := w.services[id - 1];
      && sv.pending.Some? && 1 <= sv.pending.value <= |w.providers| && 1 <= id <= |w'.services|
      && (r.Ok? ==>
            && w'.services[id - 1] == sv.(provider := sv.pending.value, pending := None,
                                          state := BindingState(id, generation + 1, Active))
            && Activated(w, w', id, w.providers[sv.pending.value - 1].owner))
      && (r == Err(Fatal) ==> w'.services[id - 1] == WithPhase(sv, Faulted))
      && (r.Err? && !r.error.Fatal? ==> Unchanged(w, w', id))
  }

  ghost predicate MayAbort(w: World, admin: bool, caller: nat, id: nat, generation: nat) {
    && Manages(w, admin, caller, id, generation)
    && (w.services[id - 1].state.phase.Prepared? || w.services[id - 1].state.phase.Quiesced?)
  }

  ghost predicate AbortAnswer(w: World, w': World, admin: bool, caller: nat, id: nat, generation: nat, r: Status,
                              failed: bool) {
    if !MayAbort(w, admin, caller, id, generation) then r.Err? && w' == w
    else
      var sv := w.services[id - 1];
      && (r.Err? ==> failed && sv.state.phase.Quiesced?)
      && 1 <= sv.provider <= |w.providers| && 1 <= id <= |w'.services|
      && (r.Ok? ==>
            && w'.services[id - 1] == sv.(pending := None, state := BindingState(id, generation, Active))
            && (sv.state.phase.Quiesced? ==> Activated(w, w', id, w.providers[sv.provider - 1].owner)))
      && (r == Err(Fatal) ==> w'.services[id - 1] == WithPhase(sv, Faulted))
      && (r.Err? && !r.error.Fatal? ==> Unchanged(w, w', id))
  }

  ghost predicate RetireAnswer(w: World, w': World, caller: nat, id: nat, r: Status, failed: bool) {
    var may := Live(w, id) && w.providers[id - 1].owner == caller && w.providers[id - 1].service.None?;
    && (r.Ok? ==> may) && (may ==> r.Ok? || failed)
    && w' == if r.Ok? then w.(providers := w.providers[id - 1 := w.providers[id - 1].(retired := true)]) else w
  }

  /** A session that may be closed: the caller's own, and while it has an open buffer only when no Provider
      can see it. */
  ghost predicate MayClose(w: World, caller: nat, id: nat) {
    && OwnsSession(w, caller, id)
    && var e := w.entries[Place(id)];
       e.Some? && !e.value.closed ==> ServiceOf(w, id).state.phase.Quiesced?
  }

  ghost predicate Disconnected(w: World, i: int) {
    0 <= i < |w.clients| && (w.clients[i].Some? ==> w.clients[i].value.closed)
  }

  ghost predicate BufferGone(w: World, i: int) {
    0 <= i < |w.entries| && (w.entries[i].Some? ==>
                               w.entries[i].value.closed && w.entries[i].value.client.installed == 0)
  }

  ghost function FaultedIf(services: seq<Service>, s: nat, r: Status): seq<Service>
    requires 1 <= s <= |services|
  {
    if r == Err(Fatal) then services[s - 1 := WithPhase(services[s - 1], Faulted)] else services
  }

  /** Nothing at all without the right to it; otherwise the connection to the event first, then the buffer,
      then the session, and nothing of any other session. */
  ghost predicate CloseAnswer(w: World, w': World, caller: nat, id: nat, r: Status, failed: bool) {
    if !MayClose(w, caller, id) then r.Err? && w' == w
    else
      var i := Place(id);
      var s := w.sessions[i].service;
      && (r.Ok? ==> Disconnected(w', i) && BufferGone(w', i))
      && w'.sessions == (if r.Ok? then w.sessions[i := w.sessions[i].(closed := true)] else w.sessions)
      && (w'.entries != w.entries || w'.mapped != w.mapped ==> Disconnected(w', i))
      && |w'.clients| == |w.clients| == |w'.entries| == SESSIONS
      && (forall j :: 0 <= j < SESSIONS && j != i ==>
            w'.clients[j] == w.clients[j] && SameAt(w.entries, w.mapped, w'.entries, w'.mapped, j))
      && (w'.services == w.services || (r == Err(Fatal) && w'.services == FaultedIf(w.services, s, r)))
      && (r == Err(Fatal) && !Disconnected(w', i) ==> w'.services == FaultedIf(w.services, s, r))
      && (!w.services[s - 1].state.phase.Faulted? && (w.clients[i].Some? ==> w.clients[i].value.ready) ==>
            r.Ok? || failed)
  }

  /** The connection of session `i` to the event is closed, or the attempt failed. */
  ghost predicate EventStep(w: World, w': World, i: int, s: nat, r: Status, failed: bool) {
    && 1 <= s <= |w.services| && 0 <= i < SESSIONS && |w'.clients| == |w.clients| == SESSIONS
    && w' == w.(services := FaultedIf(w.services, s, r), events := w'.events, clients := w'.clients)
    && (forall j :: 0 <= j < SESSIONS && j != i ==> w'.clients[j] == w.clients[j])
    && (r.Ok? ==> Disconnected(w', i))
    && (r.Err? ==> failed || (w.clients[i].Some? && !w.clients[i].value.ready))
  }

  /** The buffer of session `i` is closed, or the attempt failed. */
  ghost predicate BufferStep(w: World, w': World, i: int, s: nat, r: Status, failed: bool) {
    && 1 <= s <= |w.services| && 0 <= i < SESSIONS && |w'.entries| == |w.entries| == SESSIONS
    && w' == w.(services := FaultedIf(w.services, s, r), entries := w'.entries, mapped := w'.mapped)
    && (forall j :: 0 <= j < SESSIONS && j != i ==> SameAt(w.entries, w.mapped, w'.entries, w'.mapped, j))
    && (r.Ok? ==> BufferGone(w', i))
    && (r.Err? && !w.services[s - 1].state.phase.Faulted? ==> failed)
  }

  lemma EventStepAnswers(w: World, w': World, caller: nat, id: nat, r: Status, failed: bool)
    requires MayClose(w, caller, id) && EventStep(w, w', Place(id), w.sessions[Place(id)].service, r, failed) && r.Err?
    ensures CloseAnswer(w, w', caller, id, r, failed)
  {
  }

  lemma BufferStepAnswers(w: World, w1: World, w': World, caller: nat, id: nat, r: Status, failed: bool)
    requires MayClose(w, caller, id) && EventStep(w, w1, Place(id), w.sessions[Place(id)].service, Ok, false)
    requires BufferStep(w1, w', Place(id), w.sessions[Place(id)].service, r, failed) && r.Err?
    ensures CloseAnswer(w, w', caller, id, r, failed)
  {
  }

  lemma SessionStepAnswers(w: World, w1: World, w2: World, w': World, caller: nat, id: nat, r: Status, failed: bool)
    requires MayClose(w, caller, id) && EventStep(w, w1, Place(id), w.sessions[Place(id)].service, Ok, false)
    requires BufferStep(w1, w2, Place(id), w.sessions[Place(id)].service, Ok, false) && (r.Err? ==> failed)
    requires w' == w2.(sessions := if r.Ok? then w.sessions[Place(id) := w.sessions[Place(id)].(closed := true)]
                                   else w.sessions)
    ensures CloseAnswer(w, w', caller, id, r, failed)
  {
  }

  /** A buffer for a session: the caller's own, open, of a Service that is bound and not being handed over. */
  ghost predicate MayBuffer(w: World, caller: nat, id: nat, bytes: nat) {
    && OwnsSession(w, caller, id) && !w.sessions[Place(id)].closed && 1 <= bytes <= 65536
    && var sv := ServiceOf(w, id);
       && (sv.profile == MANAGED_BUFFER_PROFILE || sv.profile == MANAGED_EVENT_PROFILE)
       && (sv.state.phase.Active? || sv.state.phase.Prepared?)
  }

  ghost predicate BufferAnswer(w: World, w': World, caller: nat, id: nat, bytes: nat, r: Outcome<View>) {
    if !MayBuffer(w, caller, id, bytes) then r.Error? && w' == w
    else
      var i := Place(id);
      && w' == w.(services := w'.services, entries := w'.entries, mapped := w'.mapped)
      && |w'.entries| == SESSIONS
      && (w'.entries != w.entries ==> w.entries[i].None?)
      && (forall j :: 0 <= j < SESSIONS && (j != i || w.entries[i].Some?) ==>
            SameAt(w.entries, w.mapped, w'.entries, w'.mapped, j))
      && (r.Value? ==>
            && w'.services == w.services && w'.entries[i].Some?
            && var b := w'.entries[i].value;
               && Open(b) && b.service == w.sessions[i].service && b.client.owner == caller
               && b.pages * PAGE < bytes + PAGE && bytes <= b.pages * PAGE
               && r.value == View(b.client.address, b.pages * PAGE))
  }

  /** The right to notify a Service: for the caller's own open session, while the Service is bound. */
  ghost predicate MayNotify(w: World, caller: nat, id: nat) {
    && OwnsSession(w, caller, id) && !w.sessions[Place(id)].closed
    && var sv := ServiceOf(w, id);
       sv.profile == MANAGED_EVENT_PROFILE && (sv.state.phase.Active? || sv.state.phase.Prepared?)
  }

  ghost predicate NotifyAnswer(w: World, w': World, caller: nat, id: nat, slot: nat, r: Status, failed: bool) {
    if !MayNotify(w, caller, id) then r.Err? && w' == w
    else
      var i := Place(id);
      && w' == w.(services := w'.services, events := w'.events, clients := w'.clients)
      && |w'.clients| == |w.clients| == SESSIONS
      && (forall j :: 0 <= j < SESSIONS && j != i ==> w'.clients[j] == w.clients[j])
      && (r.Ok? ==>
            && w'.services == w.services && 23 <= slot < 224
            && w'.clients[i] == Some(Client(w.sessions[i].service, caller, slot, true, false))
            && (w.clients[i].Some? ==> w'.clients[i] == w.clients[i]))
      && (r.Err? && !r.error.Fatal? ==> w' == w)
      && (w'.services != w.services ==> r == Err(Fatal))
      && (r == Err(Fatal) ==>
            && w'.services == FaultedIf(w.services, w.sessions[i].service, r)
            && (|| failed || (w.clients[i].Some? && !w.clients[i].value.ready)
                || (w.sessions[i].service <= |w.events| && w.events[w.sessions[i].service - 1].faulted)))
  }

  /** A request and its answer fit what has become of the tables. */
  ghost predicate Performed(q: Request, w: World, w': World, r: Reply, failed: bool) {
    match q
    case Register(caller, interface, raw, notification, profile) =>
      RegisterAnswer(w, w', caller, interface, raw, notification, profile, Numbered(r), failed)
    case Publish(admin, caller, provider) => PublishAnswer(w, w', admin, caller, provider, Numbered(r), failed)
    case Import(sessionLimit) => ImportAnswer(w, w', sessionLimit, Numbered(r))
    case Connect(owner, id, slot) => ConnectAnswer(w, w', owner, id, slot, Numbered(r), failed)
    case Prepare(admin, caller, id, generation, next) =>
      PrepareAnswer(w, w', admin, caller, id, generation, next, Plain(r))
    case Quiesce(admin, caller, id, generation, _) =>
      QuiesceAnswer(w, w', admin, caller, id, generation, Plain(r))
    case Acknowledge(caller, id, generation) => AcknowledgeAnswer(w, w', caller, id, generation, Plain(r), failed)
    case Commit(admin, caller, id, generation) => CommitAnswer(w, w', admin, caller, id, generation, Plain(r))
    case Abort(admin, caller, id, generation) => AbortAnswer(w, w', admin, caller, id, generation, Plain(r), failed)
    case Close(caller, id) => CloseAnswer(w, w', caller, id, Plain(r), failed)
    case Retire(caller, id) => RetireAnswer(w, w', caller, id, Plain(r), failed)
    case BufferCreate(caller, id, bytes) => BufferAnswer(w, w', caller, id, bytes, Viewed(r))
    case EventConnect(caller, id, slot) => NotifyAnswer(w, w', caller, id, slot, Plain(r), failed)
  }

  function Plain(r: Reply): Status {
    match r
    case Denied(error) => Err(error)
    case _ => Ok
  }

  function Numbered(r: Reply): Outcome<nat> {
    match r
    case Number(value) => Value(value)
    case Denied(error) => Error(error)
    case _ => Error(OtherError)
  }

  function Viewed(r: Reply): Outcome<View> {
    match r
    case Seen(view) => Value(view)
    case Denied(error) => Error(error)
    case _ => Error(OtherError)
  }

  // ---- whom a request concerns ----

  /** The Service that a request is about, if any. */
  ghost function Subject(q: Request, w: World): nat {
    match q
    case Connect(_, id, _) => id
    case Prepare(_, _, id, _, _) => id
    case Quiesce(_, _, id, _, _) => id
    case Commit(_, _, id, _) => id
    case Abort(_, _, id, _) => id
    case Acknowledge(_, id, _) => ServiceBoundTo(w, id)
    case Close(_, id) => ServiceAtSession(w, id)
    case BufferCreate(_, id, _) => ServiceAtSession(w, id)
    case EventConnect(_, id, _) => ServiceAtSession(w, id)
    case _ => 0
  }

  ghost function ServiceBoundTo(w: World, p: nat): nat {
    if 1 <= p <= |w.providers| && w.providers[p - 1].service.Some? then w.providers[p - 1].service.value else 0
  }

  ghost function ServiceAtSession(w: World, id: nat): nat {
    if 0 <= Place(id) < |w.sessions| then w.sessions[Place(id)].service else 0
  }

  function Answered(r: Status): Reply {
    if r.Ok? then Done else Denied(r.error)
  }

  function AnsweredNumber(r: Outcome<nat>): Reply {
    if r.Value? then Number(r.value) else Denied(r.error)
  }

  function AnsweredView(r: Outcome<View>): Reply {
    if r.Value? then Seen(r.value) else Denied(r.error)
  }

  /** None of the requests is about the Service. */
  ghost predicate Unconcerned(requests: seq<Request>, w: World, s: nat) {
    forall q :: q in requests ==> Subject(q, w) != s
  }

  /** Of sessions that are the Service's before or after, nothing has changed. */
  ghost predicate SessionKept(w: World, w': World, s: nat, i: int) {
    0 <= i < SESSIONS && (OfService(w, i, s) || OfService(w', i, s)) ==>
      && i < |w.sessions| && i < |w'.sessions| && w'.sessions[i] == w.sessions[i]
      && i < |w.clients| && i < |w'.clients| && w'.clients[i] == w.clients[i]
      && SameAt(w.entries, w.mapped, w'.entries, w'.mapped, i)
  }

  /** A Service as it was: its binding, its holder, its event, its sessions, their buffers and mappings. */
  ghost predicate Kept(w: World, w': World, s: nat) {
    BindingKept(w, w', s - 1) && forall i {:trigger SessionKept(w, w', s, i)} :: SessionKept(w, w', s, i)
  }

  /** A step that touches one Service only keeps every other. */
  lemma OthersKept(w: World, w': World, t: nat, s: nat)
    requires OnlyTouches(w, w', t) && s != t
    ensures Kept(w, w', s)
  {
    assert BindingKept(w, w', s - 1);
    forall i ensures SessionKept(w, w', s, i) {
      assert PlaceKept(w, w', t, i);
    }
  }

  lemma KeptTwice(a: World, b: World, c: World, s: nat)
    requires 1 <= s <= |a.services| && Kept(a, b, s) && Kept(b, c, s)
    ensures Kept(a, c, s)
  {
    forall i ensures SessionKept(a, c, s, i) {
      assert SessionKept(a, b, s, i) && SessionKept(b, c, s, i);
    }
  }

  ghost predicate AttachmentAt(w: World, s: nat) {
    1 <= s <= |w.services| ==>
      && w.services[s - 1].provider <= |w.providers|
      && (w.services[s - 1].pending.Some? ==> 1 <= w.services[s - 1].pending.value <= |w.providers|)
      && forall j :: 0 <= j < |w.providers| ==>
           (w.providers[j].service == Some(s) <==>
              w.services[s - 1].provider == j + 1 || w.services[s - 1].pending == Some(j + 1))
  }

  /** As long as a Service is kept, no other request becomes one about it. */
  lemma SubjectStays(q: Request, w: World, w': World, s: nat)
    requires 1 <= s <= |w.services| && Kept(w, w', s) && AttachmentAt(w, s) && AttachmentAt(w', s)
    requires |w'.sessions| <= SESSIONS && Subject(q, w') == s
    ensures Subject(q, w) == s
  {
    match q {
      case Close(_, id) => assert SessionKept(w, w', s, Place(id));
      case BufferCreate(_, id, _) => assert SessionKept(w, w', s, Place(id));
      case EventConnect(_, id, _) => assert SessionKept(w, w', s, Place(id));
      case _ =>
    }
  }

  /** A Service that a request was not about at first is not touched by it later either. */
  lemma Spared(q: Request, w: World, w1: World, w2: World, s: nat)
    requires 1 <= s <= |w.services| && Kept(w, w1, s) && AttachmentAt(w, s) && AttachmentAt(w1, s)
    requires |w1.sessions| <= SESSIONS && Subject(q, w) != s && OnlyTouches(w1, w2, Subject(q, w1))
    ensures Kept(w, w2, s)
  {
    hide Kept, AttachmentAt, OnlyTouches, Subject;
    if Subject(q, w1) == s {
      SubjectStays(q, w, w1, s);
    } else {
      OthersKept(w1, w2, Subject(q, w1), s);
      KeptTwice(w, w1, w2, s);
    }
  }

  lemma KeptAsIs(w: World, s: nat)
    requires 1 <= s <= |w.services| && Safe(w)
    ensures Kept(w, w, s)
  {
    TouchesNothing(w, 0);
    OthersKept(w, w, 0, s);
  }

  /** Step `i` of a run: safe before and after, one Service touched, and the answer is true. */
  ghost predicate StepOfRun(requests: seq<Request>, replies: seq<Reply>, worlds: seq<World>, i: int) {
    0 <= i < |requests| && i < |replies| && i + 1 < |worlds| ==>
      && Safe(worlds[i]) && Safe(worlds[i + 1])
      && OnlyTouches(worlds[i], worlds[i + 1], Subject(requests[i], worlds[i]))
      && Performed(requests[i], worlds[i], worlds[i + 1], replies[i], true)
  }

  lemma FailureExcuses(q: Request, w: World, w': World, r: Reply, failed: bool)
    requires Performed(q, w, w', r, failed)
    ensures Performed(q, w, w', r, true)
  {
    hide CommitAnswer, PrepareAnswer, QuiesceAnswer, ImportAnswer, BufferAnswer, Activated, Unchanged,
         MayClose, Stopping, MayAbort, MayPublish, MayConnect;
  }

  lemma RunLonger(requests: seq<Request>, replies: seq<Reply>, worlds: seq<World>, r: Reply, w: World)
    requires |worlds| == |replies| + 1 && |replies| < |requests|
    requires forall i {:trigger StepOfRun(requests, replies, worlds, i)} :: StepOfRun(requests, replies, worlds, i)
    requires var n := |replies|;
             && Safe(worlds[n]) && Safe(w) && OnlyTouches(worlds[n], w, Subject(requests[n], worlds[n]))
             && Performed(requests[n], worlds[n], w, r, true)
    ensures forall i {:trigger StepOfRun(requests, replies + [r], worlds + [w], i)} ::
              StepOfRun(requests, replies + [r], worlds + [w], i)
  {
    hide Safe, OnlyTouches, Performed, Subject;
    forall i ensures StepOfRun(requests, replies + [r], worlds + [w], i) {
      assert StepOfRun(requests, replies, worlds, i);
    }
  }
}
