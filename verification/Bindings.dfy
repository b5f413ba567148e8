/** The identities of Providers, Services and sessions, and the five-phase handover of a Service from
    one Provider to the next. The outcome of the effect that a transition depends on is an argument:
    it matters only when the guards of the transition have passed. */
module ServiceBindings {
  import opened Options
  import opened Capabilities

  const PROVIDERS: nat := 32
  const SERVICES: nat := 32
  const SESSIONS: nat := 64
  const SESSION_IDENTIFIER_BIT: nat := 0x8000_0000_0000_0000
  const WORD_LIMIT: nat := 0x1_0000_0000_0000_0000
  const MAX_GENERATION: nat := 0x1FFF_FFFF_FFFF_FFFF
  const STATELESS_CONTROL_PROFILE: nat := 1
  const MANAGED_BUFFER_PROFILE: nat := 2
  const MANAGED_EVENT_PROFILE: nat := 3

  // ---- the public form of a binding's state ----

  datatype Phase = Active | Prepared | Quiescing | Quiesced | Faulted

  datatype BindingState = BindingState(service: nat, generation: nat, phase: Phase)

  function PhaseNumber(phase: Phase): nat {
    match phase
    case Active => 0
    case Prepared => 1
    case Quiescing => 2
    case Quiesced => 3
    case Faulted => 4
  }

  /** The generation shifted past three bits of phase, in one machine word. */
  function Encode(state: BindingState): nat {
    (state.generation * 8) % WORD_LIMIT + PhaseNumber(state.phase)
  }

  /** The numbers that stand for the phases outside. */
  lemma Encoded(state: BindingState)
    requires state.generation <= MAX_GENERATION
    ensures Encode(state) / 8 == state.generation
    ensures Encode(state) % 8 == match state.phase
                                 case Active => 0
                                 case Prepared => 1
                                 case Quiescing => 2
                                 case Quiesced => 3
                                 case Faulted => 4
  {
    assert (state.generation * 8) % WORD_LIMIT == state.generation * 8;
  }

  function Decode(service: nat, raw: nat): BindingState {
    var phase := match raw % 8
      case 0 => Active
      case 1 => Prepared
      case 2 => Quiescing
      case 3 => Quiesced
      case _ => Faulted;
    BindingState(service, raw / 8, phase)
  }

  /** Decoding undoes encoding exactly while the generation fits in 61 bits. */
  lemma RoundTrips(state: BindingState)
    ensures Decode(state.service, Encode(state)) == state <==> state.generation <= MAX_GENERATION
  {
    if state.generation <= MAX_GENERATION {
      assert (state.generation * 8) % WORD_LIMIT == state.generation * 8;
    } else {
      assert Encode(state) / 8 < state.generation;
    }
  }

  /** Profile 3 packs two slots in the receiver argument. */
  function ProviderSlots(profile: nat, raw: nat, notification: nat): Option<(nat, nat)> {
    if profile != MANAGED_EVENT_PROFILE && profile != STATELESS_CONTROL_PROFILE
       && profile != MANAGED_BUFFER_PROFILE then None
    else
      var receiver := if profile == MANAGED_EVENT_PROFILE then raw % 256 else raw;
      var event := if profile == MANAGED_EVENT_PROFILE then raw / 256 else 0;
      if !(23 <= receiver < 224) || !(23 <= notification < 224) || receiver == notification then None
      else if profile == MANAGED_EVENT_PROFILE
              && (!(23 <= event < 224) || event == receiver || event == notification) then None
      else Some((receiver, event))
  }

  /** Slots of the event profile are packed into one word and come back exactly when they are valid and
      different. */
  lemma SlotsPacked(raw: nat, notification: nat, receiver: nat, event: nat)
    ensures ProviderSlots(MANAGED_EVENT_PROFILE, raw, notification) == Some((receiver, event)) <==>
              && raw == receiver + 256 * event && 23 <= receiver < 224 && 23 <= event < 224 && 23 <= notification < 224
              && receiver != notification && event != notification && event != receiver
  {
    if raw == receiver + 256 * event && receiver < 224 {
      assert raw % 256 == receiver && raw / 256 == event;
    }
  }

  /** The other profiles have no event, and the receiver as it is; there are no further profiles. */
  lemma SlotsPlain(profile: nat, raw: nat, notification: nat, receiver: nat, event: nat)
    requires profile != MANAGED_EVENT_PROFILE
    ensures ProviderSlots(profile, raw, notification) == Some((receiver, event)) <==>
              && 1 <= profile <= 2 && receiver == raw && event == 0 && 23 <= raw < 224 && 23 <= notification < 224
              && raw != notification
  {
  }

  lemma SlotsInRange(profile: nat, raw: nat, notification: nat)
    ensures var slots := ProviderSlots(profile, raw, notification);
            slots.Some? && profile == MANAGED_EVENT_PROFILE ==> 23 <= slots.value.1 < 224
  {
  }

  predicate PermitsBufferView(phase: Phase) {
    phase.Active? || phase.Prepared? || phase.Quiescing?
  }

  // ---- the tables ----

  datatype Provider = Provider(owner: nat, interface: nat, profile: nat, receiverSlot: nat, notificationSlot: nat,
                               eventSlot: nat, service: Option<nat>, lastService: Option<nat>, retired: bool)

  datatype Service = Service(manager: nat, provider: nat, pending: Option<nat>, state: BindingState,
                             sessionLimit: nat, profile: nat)

  datatype SessionOwner = Process(pid: nat) | Domain(id: nat)

  datatype Session = Session(owner: SessionOwner, slot: nat, service: nat, closed: bool)

  /** A public name of a binding. */
  datatype Name = Name(service: nat, generation: nat)

  function SessionIndex(id: nat): Option<nat> {
    if id < SESSION_IDENTIFIER_BIT then None
    else if 1 <= id - SESSION_IDENTIFIER_BIT <= SESSIONS then Some(id - SESSION_IDENTIFIER_BIT - 1)
    else None
  }

  /** A Provider that was registered with exactly these parameters. */
  predicate Registers(p: Provider, owner: nat, interface: nat, profile: nat, receiver: nat, notification: nat,
                      event: nat) {
    && p.owner == owner && p.interface == interface && p.receiverSlot == receiver && p.notificationSlot == notification
    && p.profile == profile && p.eventSlot == event
  }

  /** Sessions that count against a Service's limit. */
  function SessionsOf(sessions: seq<Session>, id: nat): nat {
    if sessions == [] then 0 else
    var n := |sessions| - 1;
    SessionsOf(sessions[..n], id) + (if sessions[n].service == id then 1 else 0)
  }

  predicate Imported(sv: Service) {
    sv.provider == 0
  }

  /** Provider `p` is live and reserved for service `id`. */
  ghost predicate Attached(providers: seq<Provider>, p: nat, id: nat, profile: nat) {
    && 1 <= p <= |providers| && providers[p - 1].service == Some(id) && !providers[p - 1].retired
    && providers[p - 1].profile == profile
  }

  ghost predicate ServiceSound(providers: seq<Provider>, sv: Service, id: nat) {
    && sv.state.service == id && 1 <= sv.state.generation <= MAX_GENERATION
    && (Imported(sv) <==> sv.manager == 0)
    && (Imported(sv) ==> sv.pending.None? && (sv.state.phase.Active? || sv.state.phase.Faulted?))
    && (sv.state.phase.Active? ==> sv.pending.None?)
    && (sv.state.phase.Prepared? || sv.state.phase.Quiescing? || sv.state.phase.Quiesced? ==> sv.pending.Some?)
    && (!Imported(sv) ==> Attached(providers, sv.provider, id, sv.profile))
    && (sv.pending.Some? ==>
          && sv.pending.value != sv.provider && sv.state.generation < MAX_GENERATION
          && Attached(providers, sv.pending.value, id, sv.profile)
          && providers[sv.pending.value - 1].interface == providers[sv.provider - 1].interface)
  }

  /** A Provider that uses an event has a slot for it. */
  predicate Eventful(p: Provider) {
    p.profile == MANAGED_EVENT_PROFILE ==> 23 <= p.eventSlot < 224
  }

  ghost predicate ProviderSound(services: seq<Service>, p: Provider, id: nat) {
    && p.owner != 0 && Eventful(p)
    && (p.service.Some? ==>
          && 1 <= p.service.value <= |services| && !p.retired
          && (services[p.service.value - 1].provider == id || services[p.service.value - 1].pending == Some(id)))
  }

  ghost predicate OneLivePerOwner(providers: seq<Provider>) {
    forall i, j :: 0 <= i < j < |providers| && !providers[i].retired && !providers[j].retired ==>
      providers[i].owner != providers[j].owner
  }

  ghost predicate ServiceAt(providers: seq<Provider>, services: seq<Service>, i: int) {
    0 <= i < |services| ==> ServiceSound(providers, services[i], i + 1)
  }

  ghost predicate ProviderAt(providers: seq<Provider>, services: seq<Service>, j: int) {
    0 <= j < |providers| ==> ProviderSound(services, providers[j], j + 1)
  }

  ghost predicate NameAt(services: seq<Service>, names: map<Name, nat>, i: int) {
    0 <= i < |services| && !Imported(services[i]) ==>
      var name := Name(i + 1, services[i].state.generation); name in names && names[name] == services[i].provider
  }

  ghost predicate NameUsed(services: seq<Service>, n: Name) {
    1 <= n.service <= |services| && n.generation <= services[n.service - 1].state.generation
  }

  /** `names` remembers which Provider every generation of every Service was bound to. */
  ghost predicate NamesSound(services: seq<Service>, names: map<Name, nat>) {
    && (forall i {:trigger NameAt(services, names, i)} :: NameAt(services, names, i))
    && (forall n {:trigger NameUsed(services, n)} :: n in names ==> NameUsed(services, n))
  }

  ghost predicate Sound(providers: seq<Provider>, services: seq<Service>, names: map<Name, nat>) {
    && (forall i {:trigger ServiceAt(providers, services, i)} :: ServiceAt(providers, services, i))
    && (forall j {:trigger ProviderAt(providers, services, j)} :: ProviderAt(providers, services, j))
    && OneLivePerOwner(providers) && NamesSound(services, names)
  }

  function WithPhase(sv: Service, phase: Phase): Service {
    sv.(state := sv.state.(phase := phase))
  }

  lemma OneRegistration(providers: seq<Provider>, services: seq<Service>, names: map<Name, nat>, i: nat)
    requires Sound(providers, services, names) && i < |providers| && !providers[i].retired
    ensures forall j ::
              0 <= j < |providers| && !providers[j].retired && providers[j].owner == providers[i].owner ==> j == i
  {
  }

  /** A phase change that agrees with `pending` keeps the tables sound. */
  lemma PhaseKeeps(providers: seq<Provider>, services: seq<Service>, names: map<Name, nat>, id: nat, phase: Phase)
    requires Sound(providers, services, names) && 1 <= id <= |services|
    requires phase.Faulted? || (services[id - 1].pending.Some? && !phase.Active?)
    ensures Sound(providers, services[id - 1 := WithPhase(services[id - 1], phase)], names)
  {
    var services' := services[id - 1 := WithPhase(services[id - 1], phase)];
    forall i ensures ServiceAt(providers, services', i) && NameAt(services', names, i) {
      assert ServiceAt(providers, services, i) && NameAt(services, names, i);
    }
    forall j ensures ProviderAt(providers, services', j) {
      assert ProviderAt(providers, services, j);
    }
    forall n | n in names ensures NameUsed(services', n) {
      assert NameUsed(services, n);
    }
  }

  lemma RegisterKeeps(providers: seq<Provider>, services: seq<Service>, names: map<Name, nat>, p: Provider)
    requires Sound(providers, services, names) && p.owner != 0 && Eventful(p) && p.service.None? && !p.retired
    requires forall j :: 0 <= j < |providers| ==> providers[j].retired || providers[j].owner != p.owner
    ensures Sound(providers + [p], services, names)
  {
    forall i ensures ServiceAt(providers + [p], services, i) {
      assert ServiceAt(providers, services, i);
    }
    forall j ensures ProviderAt(providers + [p], services, j) {
      assert ProviderAt(providers, services, j);
    }
  }

  /** Changes to a Provider that no Service has attached. */
  lemma FreeProviderKeeps(providers: seq<Provider>, services: seq<Service>, names: map<Name, nat>, p: nat)
    requires Sound(providers, services, names) && 1 <= p <= |providers| && providers[p - 1].service.None?
    ensures Sound(providers[p - 1 := providers[p - 1].(retired := true)], services, names)
    ensures forall i :: 0 <= i < |services| ==> services[i].provider != p && services[i].pending != Some(p)
  {
    var providers' := providers[p - 1 := providers[p - 1].(retired := true)];
    forall i ensures ServiceAt(providers', services, i) {
      assert ServiceAt(providers, services, i);
    }
    forall j ensures ProviderAt(providers', services, j) {
      assert ProviderAt(providers, services, j);
    }
    forall i | 0 <= i < |services| ensures services[i].provider != p && services[i].pending != Some(p) {
      assert ServiceAt(providers, services, i);
    }
  }

  lemma PublishKeeps(providers: seq<Provider>, services: seq<Service>, names: map<Name, nat>, p: nat, sv: Service)
    requires Sound(providers, services, names) && 1 <= p <= |providers| && providers[p - 1].service.None?
    requires !providers[p - 1].retired && sv.manager != 0 && sv.provider == p && sv.pending.None?
    requires sv.profile == providers[p - 1].profile && sv.state == BindingState(|services| + 1, 1, Active)
    ensures Sound(providers[p - 1 := providers[p - 1].(service := Some(|services| + 1))], services + [sv],
                  names[Name(|services| + 1, 1) := p])
    ensures NamesGrow(names, names[Name(|services| + 1, 1) := p])
  {
    var id := |services| + 1;
    var providers' := providers[p - 1 := providers[p - 1].(service := Some(id))];
    var services', names' := services + [sv], names[Name(id, 1) := p];
    forall i ensures ServiceAt(providers', services', i) && NameAt(services', names', i) {
      assert ServiceAt(providers, services, i) && NameAt(services, names, i);
    }
    forall j ensures ProviderAt(providers', services', j) {
      assert ProviderAt(providers, services, j);
    }
    forall n | n in names' ensures NameUsed(services', n) && (n in names ==> n.service != id) {
      assert n in names ==> NameUsed(services, n);
    }
  }

  lemma ImportKeeps(providers: seq<Provider>, services: seq<Service>, names: map<Name, nat>, sv: Service)
    requires Sound(providers, services, names) && sv.manager == 0 && sv.provider == 0 && sv.pending.None?
    requires sv.state == BindingState(|services| + 1, 1, Active)
    ensures Sound(providers, services + [sv], names)
  {
    forall i ensures ServiceAt(providers, services + [sv], i) && NameAt(services + [sv], names, i) {
      assert ServiceAt(providers, services, i) && NameAt(services, names, i);
    }
    forall j ensures ProviderAt(providers, services + [sv], j) {
      assert ProviderAt(providers, services, j);
    }
    forall n | n in names ensures NameUsed(services + [sv], n) {
      assert NameUsed(services, n);
    }
  }

  lemma PrepareKeeps(providers: seq<Provider>, services: seq<Service>, names: map<Name, nat>, id: nat, next: nat)
    requires Sound(providers, services, names) && 1 <= id <= |services| && 1 <= next <= |providers|
    requires services[id - 1].state.phase.Active? && services[id - 1].manager != 0
    requires services[id - 1].state.generation < MAX_GENERATION && next != services[id - 1].provider
    requires var n := providers[next - 1]; n.service.None? && !n.retired && n.profile == services[id - 1].profile
    requires 1 <= services[id - 1].provider <= |providers|
    requires providers[next - 1].interface == providers[services[id - 1].provider - 1].interface
    ensures Sound(providers[next - 1 := providers[next - 1].(service := Some(id))],
                  services[id - 1 := WithPhase(services[id - 1], Prepared).(pending := Some(next))], names)
  {
    var providers' := providers[next - 1 := providers[next - 1].(service := Some(id))];
    var services' := services[id - 1 := WithPhase(services[id - 1], Prepared).(pending := Some(next))];
    forall i ensures ServiceAt(providers', services', i) && NameAt(services', names, i) {
      assert ServiceAt(providers, services, i) && NameAt(services, names, i);
    }
    assert ServiceAt(providers, services, id - 1);
    forall j ensures ProviderAt(providers', services', j) {
      assert ProviderAt(providers, services, j);
      if 0 <= j < |providers| && j != next - 1 && providers[j].service.Some? {
        var v := providers[j].service.value;
        assert providers'[j] == providers[j] && services'[v - 1].provider == services[v - 1].provider;
        assert v != id ==> services'[v - 1] == services[v - 1];
      }
    }
    forall n | n in names ensures NameUsed(services', n) {
      assert NameUsed(services, n);
    }
  }

  /** The binding keeps one attached Provider and lets the other, `d`, go. */
  ghost predicate Settles(was: Service, sv: Service, id: nat, d: nat, names: map<Name, nat>, names': map<Name, nat>) {
    && was.pending.Some? && sv.manager == was.manager && sv.profile == was.profile && sv.state.service == id
    && sv.pending.None? && sv.state.phase.Active? && sv.state.generation <= MAX_GENERATION
    && if sv.provider == was.provider then
         d == was.pending.value && sv.state.generation == was.state.generation && names' == names
       else sv.provider == was.pending.value && d == was.provider && sv.state.generation == was.state.generation + 1
            && names' == names[Name(id, sv.state.generation) := sv.provider]
  }

  lemma SettleProvider(providers: seq<Provider>, services: seq<Service>, id: nat, sv: Service, drop: Provider, d: nat,
                       j: int)
    requires 1 <= id <= |services| && ServiceAt(providers, services, id - 1) && ProviderAt(providers, services, j)
    requires services[id - 1].pending.Some?
    requires || (sv.provider == services[id - 1].provider && d == services[id - 1].pending.value)
             || (sv.provider == services[id - 1].pending.value && d == services[id - 1].provider)
    requires 1 <= d <= |providers| && drop == providers[d - 1].(service := None, lastService := drop.lastService)
    ensures ProviderAt(providers[d - 1 := drop], services[id - 1 := sv], j)
  {
    if 0 <= j < |providers| && j != d - 1 && providers[j].service.Some? {
      var v := providers[j].service.value;
      assert v == id ==> sv.provider == j + 1;
      assert v != id ==> services[id - 1 := sv][v - 1] == services[v - 1];
    }
    assert j == d - 1 ==> drop.service.None? && drop.owner == providers[j].owner;
  }

  lemma SettleKeeps(providers: seq<Provider>, services: seq<Service>, names: map<Name, nat>, id: nat, sv: Service,
                    drop: Provider, d: nat, names': map<Name, nat>)
    requires Sound(providers, services, names) && 1 <= id <= |services|
    requires Settles(services[id - 1], sv, id, d, names, names')
    requires 1 <= d <= |providers| && drop == providers[d - 1].(service := None, lastService := drop.lastService)
    ensures Sound(providers[d - 1 := drop], services[id - 1 := sv], names') && NamesGrow(names, names')
  {
    var providers', services' := providers[d - 1 := drop], services[id - 1 := sv];
    assert ServiceAt(providers, services, id - 1);
    forall i ensures ServiceAt(providers', services', i) && NameAt(services', names', i) {
      assert ServiceAt(providers, services, i) && NameAt(services, names, i);
    }
    forall j ensures ProviderAt(providers', services', j) {
      assert ProviderAt(providers, services, j);
      SettleProvider(providers, services, id, sv, drop, d, j);
    }
    forall n | n in names' ensures NameUsed(services', n) && (n in names ==> names'[n] == names[n]) {
      assert n in names ==> NameUsed(services, n);
    }
  }

  /** How a Service may differ later: generations only grow, a generation keeps its Provider and a
      faulted binding is frozen. */
  ghost predicate Advances(a: Service, b: Service) {
    && b.manager == a.manager && b.profile == a.profile && b.sessionLimit == a.sessionLimit
    && b.state.service == a.state.service && (Imported(a) <==> Imported(b))
    && a.state.generation <= b.state.generation
    && (a.state.generation == b.state.generation ==> a.provider == b.provider)
    && (a.state.phase.Faulted? ==> b == a)
  }

  ghost predicate AllAdvance(services: seq<Service>, services': seq<Service>) {
    |services| <= |services'| && forall i :: 0 <= i < |services| ==> Advances(services[i], services'[i])
  }

  /** No name is ever given to a second Provider. */
  ghost predicate NamesGrow(names: map<Name, nat>, names': map<Name, nat>) {
    forall n :: n in names ==> n in names' && names'[n] == names[n]
  }

  class Bindings {
    var providers: seq<Provider>
    var services: seq<Service>
    var sessions: seq<Session>
    ghost var names: map<Name, nat>

    ghost predicate Valid()
      reads this
    {
      && Sound(providers, services, names)
      && |providers| <= PROVIDERS && |services| <= SERVICES && |sessions| <= SESSIONS
      && forall i :: 0 <= i < |sessions| ==> 1 <= sessions[i].service <= |services|
    }

    twostate predicate Stepped()
      reads this
    {
      AllAdvance(old(services), services) && NamesGrow(old(names), names)
    }

    constructor ()
      ensures Valid() && providers == [] && services == [] && sessions == [] && names == map[]
    {
      providers, services, sessions, names := [], [], [], map[];
    }

    // ---- lookups ----

    function FindProvider(id: nat): Outcome<Provider>
      reads this
    {
      if 1 <= id <= |providers| && !providers[id - 1].retired then Value(providers[id - 1]) else Error(InvalidArgument)
    }

    function FindService(id: nat): Outcome<Service>
      reads this
    {
      if 1 <= id <= |services| then Value(services[id - 1]) else Error(InvalidArgument)
    }

    function FindSession(id: nat): Outcome<Session>
      reads this
    {
      var i := SessionIndex(id);
      if i.Some? && i.value < |sessions| then Value(sessions[i.value]) else Error(InvalidArgument)
    }

    function Owned(caller: nat, id: nat, generation: nat): Outcome<Service>
      reads this
    {
      var sv := FindService(id);
      if sv.Error? then sv
      else if caller == 0 || sv.value.manager != caller then Error(PermissionDenied)
      else if sv.value.state.generation != generation then Error(InvalidArgument)
      else sv
    }

    function ProviderBinding(caller: nat, id: nat): Outcome<BindingState>
      reads this
    {
      var p := FindProvider(id);
      if p.Error? then Error(p.error)
      else if caller != p.value.owner then Error(PermissionDenied)
      else if p.value.service.None? then Error(InvalidArgument)
      else
        var sv := FindService(p.value.service.value);
        if sv.Error? then Error(sv.error)
        else if sv.value.provider != id then Error(InvalidArgument)
        else Value(sv.value.state)
    }

    /** A binding that a Provider may see names a published Service that is bound to it. */
    lemma BindingIsOwn(caller: nat, id: nat)
      requires Valid() && ProviderBinding(caller, id).Value?
      ensures var state := ProviderBinding(caller, id).value;
              && 1 <= state.service <= |services| && services[state.service - 1].state == state
              && services[state.service - 1].provider == id && 1 <= id <= |providers|
              && providers[id - 1].owner == caller
    {
      assert ServiceAt(providers, services, providers[id - 1].service.value - 1);
    }

    method ProviderForOwner(owner: nat) returns (r: Option<nat>)
      ensures r.Some? ==> r.value < |providers| && !providers[r.value].retired && providers[r.value].owner == owner
      ensures r.None? ==> forall j :: 0 <= j < |providers| ==> providers[j].retired || providers[j].owner != owner
    {
      for j := 0 to |providers|
        invariant forall k :: 0 <= k < j ==> providers[k].retired || providers[k].owner != owner
      {
        if !providers[j].retired && providers[j].owner == owner {
          return Some(j);
        }
      }
      return None;
    }

    // ---- transitions ----

    method Register(owner: nat, interface: nat, raw: nat, notification: nat, profile: nat, prepare: Status)
      returns (r: Outcome<nat>)
      requires Valid()
      modifies `providers
      ensures Valid()
      ensures r.Value? ==>
                && 1 <= r.value <= |providers| && !providers[r.value - 1].retired
                && ProviderSlots(profile, raw, notification).Some?
                && var (receiver, event) := ProviderSlots(profile, raw, notification).value;
                   Registers(providers[r.value - 1], owner, interface, profile, receiver, notification, event)
      ensures r.Value? <==>
                && ProviderSlots(profile, raw, notification).Some? && owner != 0 && interface != 0
                && var (receiver, event) := ProviderSlots(profile, raw, notification).value;
                   if exists j ::
                        0 <= j < |old(providers)| && !old(providers)[j].retired && old(providers)[j].owner == owner
                   then
                     exists j :: 0 <= j < |old(providers)| && !old(providers)[j].retired
                       && Registers(old(providers)[j], owner, interface, profile, receiver, notification, event)
                   else |old(providers)| < PROVIDERS && prepare.Ok?
      ensures if r == Value(|old(providers)| + 1) then
                |providers| == r.value && providers[..|old(providers)|] == old(providers)
              else providers == old(providers)
      ensures providers != old(providers) ==>
                forall j :: 0 <= j < |old(providers)| ==> old(providers)[j].retired || old(providers)[j].owner != owner
    {
      hide Sound, ProviderSlots;
      var slots := ProviderSlots(profile, raw, notification);
      if slots.None? || owner == 0 || interface == 0 {
        return Error(InvalidArgument);
      }
      var (receiver, event) := slots.value;
      var existing := ProviderForOwner(owner);
      if existing.Some? {
        var p := providers[existing.value];
        OneRegistration(providers, services, names, existing.value);
        if Registers(p, owner, interface, profile, receiver, notification, event) {
          return Value(existing.value + 1);
        }
        return Error(PermissionDenied);
      }
      if |providers| == PROVIDERS {
        return Error(InvalidArgument);
      }
      if prepare.Err? {
        return Error(prepare.error);
      }
      var p := Provider(owner, interface, profile, receiver, notification, event, None, None, false);
      SlotsInRange(profile, raw, notification);
      RegisterKeeps(providers, services, names, p);
      providers := providers + [p];
      return Value(|providers|);
    }

    predicate CanPublish(manager: nat, provider: nat)
      reads this
    {
      manager != 0 && FindProvider(provider).Value? && providers[provider - 1].service.None? && |services| < SERVICES
    }

    method Publish(manager: nat, provider: nat, install: Status) returns (r: Outcome<nat>)
      requires Valid()
      modifies `providers, `services, `names
      ensures Valid() && Stepped()
      ensures r.Value? <==> old(CanPublish(manager, provider)) && install.Ok?
      ensures r.Error? ==> providers == old(providers) && services == old(services)
      ensures r.Value? ==>
                && r.value == |old(services)| + 1
                && providers == old(providers)[provider - 1 := old(providers)[provider - 1].(service := Some(r.value))]
                && services == old(services) + [
                     Service(manager, provider, None, BindingState(r.value, 1, Active), SESSIONS,
                                                        old(providers)[provider - 1].profile)]
    {
      var instance := FindProvider(provider);
      if instance.Error? {
        return Error(instance.error);
      }
      if manager == 0 || instance.value.service.Some? || |services| == SERVICES {
        return Error(InvalidArgument);
      }
      if install.Err? {
        return Error(install.error);
      }
      var id := |services| + 1;
      var service := Service(manager, provider, None, BindingState(id, 1, Active), SESSIONS, instance.value.profile);
      PublishKeeps(providers, services, names, provider, service);
      providers := providers[provider - 1 := instance.value.(service := Some(id))];
      services := services + [service];
      names := names[Name(id, 1) := provider];
      return Value(id);
    }

    method Import(sessionLimit: nat) returns (r: Outcome<nat>)
      requires Valid()
      modifies `services
      ensures Valid() && Stepped()
      ensures r.Value? <==> 1 <= sessionLimit <= SESSIONS && |old(services)| < SERVICES
      ensures r.Error? ==> services == old(services)
      ensures r.Value? ==>
                && r.value == |services|
                && services == old(services) + [Service(0, 0, None, BindingState(r.value, 1, Active), sessionLimit,
                                                        STATELESS_CONTROL_PROFILE)]
    {
      if !(1 <= sessionLimit <= SESSIONS) || |services| == SERVICES {
        return Error(InvalidArgument);
      }
      var id := |services| + 1;
      var service := Service(0, 0, None, BindingState(id, 1, Active), sessionLimit, STATELESS_CONTROL_PROFILE);
      ImportKeeps(providers, services, names, service);
      services := services + [service];
      return Value(id);
    }

    predicate CanPrepare(caller: nat, id: nat, generation: nat, next: nat)
      reads this
    {
      && Owned(caller, id, generation).Value? && FindProvider(next).Value?
      && services[id - 1].state.phase.Active? && next != services[id - 1].provider && providers[next - 1].service.None?
      && FindProvider(services[id - 1].provider).Value?
      && providers[next - 1].interface == providers[services[id - 1].provider - 1].interface
      && providers[next - 1].profile == services[id - 1].profile && generation < MAX_GENERATION
    }

    method Prepare(caller: nat, id: nat, generation: nat, next: nat) returns (r: Status)
      requires Valid()
      modifies `providers, `services
      ensures Valid() && Stepped()
      ensures r.Ok? <==> old(CanPrepare(caller, id, generation, next))
      ensures r.Err? ==> r.error != Fatal && providers == old(providers) && services == old(services)
      ensures r.Ok? ==>
                && providers == old(providers)[next - 1 := old(providers)[next - 1].(service := Some(id))]
                && services ==
                   old(services)[id - 1 := WithPhase(old(services)[id - 1], Prepared).(pending := Some(next))]
    {
      var owned, target := Owned(caller, id, generation), FindProvider(next);
      if owned.Error? {
        return Err(owned.error);
      }
      if target.Error? {
        return Err(target.error);
      }
      var service := owned.value;
      assert ServiceAt(providers, services, id - 1);
      if !service.state.phase.Active? || next == service.provider || target.value.service.Some? {
        return Err(InvalidArgument);
      }
      // The Provider of a Service that is managed here is always live.
      var current := providers[service.provider - 1];
      if target.value.interface != current.interface || target.value.profile != service.profile
         || generation >= MAX_GENERATION {
        return Err(InvalidArgument);
      }
      PrepareKeeps(providers, services, names, id, next);
      providers := providers[next - 1 := target.value.(service := Some(id))];
      services := services[id - 1 := WithPhase(service, Prepared).(pending := Some(next))];
      return Ok;
    }

    /** Sets the phase of one Service. */
    ghost function Phased(id: nat, phase: Phase): seq<Service>
      reads this
    {
      if !(1 <= id <= |services|) then services else services[id - 1 := WithPhase(services[id - 1], phase)]
    }

    method Quiesce(caller: nat, id: nat, generation: nat, signal: Status) returns (r: Status)
      requires Valid()
      modifies `services
      ensures Valid() && Stepped()
      ensures r.Ok? <==>
                old(Owned(caller, id, generation).Value? && services[id - 1].state.phase.Prepared?) && signal.Ok?
      ensures services == if r.Ok? then old(Phased(id, Quiescing)) else old(services)
    {
      var owned := Owned(caller, id, generation);
      if owned.Error? {
        return Err(owned.error);
      }
      if !owned.value.state.phase.Prepared? {
        return Err(InvalidArgument);
      }
      if signal.Err? {
        return signal;
      }
      assert ServiceAt(providers, services, id - 1);
      PhaseKeeps(providers, services, names, id, Quiescing);
      services := services[id - 1 := WithPhase(owned.value, Quiescing)];
      return Ok;
    }

    predicate CanAcknowledge(caller: nat, id: nat, generation: nat)
      reads this
    {
      var state := ProviderBinding(caller, id);
      state.Value? && state.value.generation == generation && state.value.phase.Quiescing?
    }

    method Acknowledge(caller: nat, id: nat, generation: nat, withdraw: Status) returns (r: Outcome<nat>)
      requires Valid()
      modifies `services
      ensures Valid() && Stepped()
      ensures r.Value? <==> old(CanAcknowledge(caller, id, generation)) && withdraw.Ok?
      ensures r.Value? ==>
                r.value == old(ProviderBinding(caller, id)).value.service && services == old(Phased(r.value, Quiesced))
      ensures r.Error? && old(CanAcknowledge(caller, id, generation)) ==> r.error == withdraw.error
      ensures r.Error? ==>
                services == if old(CanAcknowledge(caller, id, generation)) && withdraw == Err(Fatal)
                            then old(Phased(ProviderBinding(caller, id).value.service, Faulted)) else old(services)
    {
      var provider, state := FindProvider(id), ProviderBinding(caller, id);
      if provider.Error? {
        return Error(provider.error);
      }
      if state.Error? {
        return Error(state.error);
      }
      if state.value.generation != generation || !state.value.phase.Quiescing? {
        return Error(InvalidArgument);
      }
      var s := state.value.service;
      BindingIsOwn(caller, id);
      if withdraw.Err? {
        if withdraw.error.Fatal? {
          Fault(s);
        }
        return Error(withdraw.error);
      }
      assert ServiceAt(providers, services, s - 1);
      PhaseKeeps(providers, services, names, s, Quiesced);
      services := services[s - 1 := WithPhase(services[s - 1], Quiesced)];
      return Value(s);
    }

    method Fault(id: nat)
      requires Valid()
      modifies `services
      ensures Valid() && Stepped()
      ensures services == old(Phased(id, Faulted))
    {
      if 1 <= id <= |services| {
        PhaseKeeps(providers, services, names, id, Faulted);
        services := services[id - 1 := WithPhase(services[id - 1], Faulted)];
      }
    }

    predicate CanCommit(caller: nat, id: nat, generation: nat)
      reads this
    {
      Owned(caller, id, generation).Value? && services[id - 1].state.phase.Quiesced?
    }

    /** The Provider that a Service is to be bound to next. */
    ghost function Pending(id: nat): Provider
      requires Valid() && 1 <= id <= |services| && services[id - 1].state.phase.Quiesced?
      reads this
    {
      assert ServiceAt(providers, services, id - 1);
      providers[services[id - 1].pending.value - 1]
    }

    /** The Provider that a quiesced Service is bound to. */
    ghost function Current(id: nat): Provider
      requires Valid() && 1 <= id <= |services| && services[id - 1].state.phase.Quiesced?
      reads this
    {
      assert ServiceAt(providers, services, id - 1);
      providers[services[id - 1].provider - 1]
    }

    method Commit(caller: nat, id: nat, generation: nat, install: Status) returns (r: Outcome<nat>)
      requires Valid()
      modifies `providers, `services, `names
      ensures Valid() && Stepped()
      ensures r.Value? <==> old(CanCommit(caller, id, generation)) && install.Ok?
      ensures r.Error? ==>
                && providers == old(providers)
                && services == if old(CanCommit(caller, id, generation)) && install == Err(Fatal)
                               then old(Phased(id, Faulted))
                               else old(services)
      ensures r.Error? ==> if old(CanCommit(caller, id, generation)) then r.error == install.error else r.error != Fatal
      ensures r.Value? ==>
                var sv := old(services)[id - 1];
                && sv.pending == Some(r.value) && 1 <= sv.provider <= |old(providers)|
                && providers == old(providers)[sv.provider - 1 :=
                                  old(providers)[sv.provider - 1].(service := None, lastService := Some(id))]
                && services == old(services)[id - 1 := sv.(provider := r.value, pending := None,
                                             state := BindingState(id, generation + 1, Active))]
    {
      var owned := Owned(caller, id, generation);
      if owned.Error? {
        return Error(owned.error);
      }
      var sv := owned.value;
      assert ServiceAt(providers, services, id - 1);
      if !sv.state.phase.Quiesced? {
        return Error(InvalidArgument);
      }
      // A quiesced Service always has a pending Provider, and it is live.
      assert sv.pending.Some? && FindProvider(sv.pending.value).Value?;
      if install.Err? {
        if install.error.Fatal? {
          PhaseKeeps(providers, services, names, id, Faulted);
          services := services[id - 1 := WithPhase(sv, Faulted)];
        }
        return Error(install.error);
      }
      var sv' := sv.(provider := sv.pending.value, pending := None,
                     state := sv.state.(generation := generation + 1, phase := Active));
      var dropped := providers[sv.provider - 1].(service := None, lastService := Some(id));
      SettleKeeps(providers, services, names, id, sv', dropped, sv.provider,
                  names[Name(id, generation + 1) := sv'.provider]);
      providers := providers[sv.provider - 1 := dropped];
      services := services[id - 1 := sv'];
      names := names[Name(id, generation + 1) := sv.pending.value];
      return Value(sv.pending.value);
    }

    predicate CanAbort(caller: nat, id: nat, generation: nat)
      reads this
    {
      && Owned(caller, id, generation).Value?
      && (services[id - 1].state.phase.Prepared? || services[id - 1].state.phase.Quiesced?)
    }

    method Abort(caller: nat, id: nat, generation: nat, restore: Status) returns (r: Status)
      requires Valid()
      modifies `providers, `services
      ensures Valid() && Stepped()
      ensures r.Ok? <==>
                old(CanAbort(caller, id, generation)) && (old(services)[id - 1].state.phase.Prepared? || restore.Ok?)
      ensures r.Err? ==>
                && providers == old(providers)
                && services == if old(CanAbort(caller, id, generation)) && restore == Err(Fatal)
                               then old(Phased(id, Faulted))
                               else old(services)
      ensures r.Err? ==> if old(CanAbort(caller, id, generation)) then r == restore else r.error != Fatal
      ensures r.Ok? ==>
                var sv := old(services)[id - 1];
                && sv.pending.Some? && 1 <= sv.pending.value <= |old(providers)|
                && providers ==
                   old(providers)[sv.pending.value - 1 := old(providers)[sv.pending.value - 1].(service := None)]
                && services == old(services)[id - 1 := WithPhase(sv, Active).(pending := None)]
    {
      var owned := Owned(caller, id, generation);
      if owned.Error? {
        return Err(owned.error);
      }
      var sv := owned.value;
      assert ServiceAt(providers, services, id - 1);
      if !sv.state.phase.Prepared? && !sv.state.phase.Quiesced? {
        return Err(InvalidArgument);
      }
      if sv.state.phase.Quiesced? && restore.Err? {
        if restore.error.Fatal? {
          PhaseKeeps(providers, services, names, id, Faulted);
          services := services[id - 1 := WithPhase(sv, Faulted)];
        }
        return restore;
      }
      var sv' := WithPhase(sv, Active).(pending := None);
      ghost var d := sv.pending.value;
      SettleKeeps(providers, services, names, id, sv', providers[d - 1].(service := None), d, names);
      if sv.pending.Some? {
        providers := providers[sv.pending.value - 1 := providers[sv.pending.value - 1].(service := None)];
      }
      services := services[id - 1 := sv'];
      return Ok;
    }

    method Charged(id: nat) returns (count: nat)
      ensures count == SessionsOf(sessions, id)
    {
      count := 0;
      for i := 0 to |sessions|
        invariant count == SessionsOf(sessions[..i], id)
      {
        assert sessions[..i + 1][..i] == sessions[..i];
        if sessions[i].service == id {
          count := count + 1;
        }
      }
      assert sessions[..|sessions|] == sessions;
    }

    predicate CanConnect(id: nat)
      reads this
    {
      && FindService(id).Value? && !services[id - 1].state.phase.Faulted?
      && |sessions| < SESSIONS && SessionsOf(sessions, id) < services[id - 1].sessionLimit
    }

    method Connect(owner: SessionOwner, id: nat, slot: nat, install: Status) returns (r: Outcome<nat>)
      requires Valid()
      modifies `services, `sessions
      ensures Valid() && Stepped()
      ensures r.Value? <==> old(CanConnect(id)) && install.Ok?
      ensures |old(sessions)| <= |sessions| && sessions[..|old(sessions)|] == old(sessions)
      ensures r.Error? ==>
                if old(CanConnect(id)) && install == Err(Fatal) then
                  services == old(Phased(id, Faulted)) && sessions == old(sessions) + [Session(owner, slot, id, true)]
                else services == old(services) && sessions == old(sessions)
      ensures r.Error? && old(CanConnect(id)) ==> r.error == install.error
      ensures r.Value? ==>
                && services == old(services) && r.value == SESSION_IDENTIFIER_BIT + |sessions|
                && sessions == old(sessions) + [Session(owner, slot, id, false)]
    {
      var service := FindService(id);
      if service.Error? {
        return Error(service.error);
      }
      if service.value.state.phase.Faulted? {
        return Error(Fatal);
      }
      var charged := Charged(id);
      if |sessions| == SESSIONS || charged >= service.value.sessionLimit {
        return Error(InvalidArgument);
      }
      if install.Err? {
        if install.error.Fatal? {
          sessions := sessions + [Session(owner, slot, id, true)];
          PhaseKeeps(providers, services, names, id, Faulted);
          services := services[id - 1 := WithPhase(service.value, Faulted)];
        }
        return Error(install.error);
      }
      sessions := sessions + [Session(owner, slot, id, false)];
      return Value(SESSION_IDENTIFIER_BIT + |sessions|);
    }

    method Close(caller: nat, id: nat, withdraw: Status) returns (r: Status)
      requires Valid()
      modifies `sessions
      ensures Valid()
      ensures r.Ok? <==>
                && old(FindSession(id)).Value? && old(FindSession(id)).value.owner == Process(caller)
                && (old(FindSession(id)).value.closed || withdraw.Ok?)
      ensures r.Ok? ==>
                && FindSession(id).Value? && SessionIndex(id).Some? && SessionIndex(id).value < |old(sessions)|
                && sessions == old(sessions)[SessionIndex(id).value := old(FindSession(id)).value.(closed := true)]
      ensures r.Err? ==> sessions == old(sessions)
    {
      var session := FindSession(id);
      if session.Error? {
        return Err(session.error);
      }
      if session.value.owner != Process(caller) {
        return Err(PermissionDenied);
      }
      if session.value.closed {
        return Ok;
      }
      if withdraw.Err? {
        return withdraw;
      }
      sessions := sessions[SessionIndex(id).value := session.value.(closed := true)];
      return Ok;
    }

    /** A Provider of the caller's that no Service is bound to or waits for. */
    predicate CanRetire(caller: nat, id: nat)
      reads this
    {
      FindProvider(id).Value? && providers[id - 1].owner == caller && providers[id - 1].service.None?
    }

    /** Only a Provider that no Service is bound to, or reserves, can retire. */
    method Retire(caller: nat, id: nat, release: Status) returns (r: Status)
      requires Valid()
      modifies `providers
      ensures Valid()
      ensures r.Ok? <==> old(CanRetire(caller, id)) && release.Ok?
      ensures providers == if r.Ok? then old(providers)[id - 1 := old(providers)[id - 1].(retired := true)]
                           else old(providers)
      ensures r.Ok? ==>
                forall i :: 0 <= i < |services| ==> services[i].provider != id && services[i].pending != Some(id)
    {
      var provider := FindProvider(id);
      if provider.Error? {
        return Err(provider.error);
      }
      if caller != provider.value.owner {
        return Err(PermissionDenied);
      }
      if provider.value.service.Some? {
        return Err(InvalidArgument);
      }
      if release.Err? {
        return release;
      }
      FreeProviderKeeps(providers, services, names, id);
      providers := providers[id - 1 := provider.value.(retired := true)];
      return Ok;
    }

    /** What a manager or a Provider reads of a binding is the binding. */
    lemma StateIsReadable(id: nat)
      requires Valid() && FindService(id).Value?
      ensures Decode(id, Encode(services[id - 1].state)) == services[id - 1].state
    {
      assert ServiceAt(providers, services, id - 1);
      RoundTrips(services[id - 1].state);
    }

    /** A Provider is attached to a Service exactly when it is that Service's current or pending one. */
    lemma AttachmentIsExact(p: nat, id: nat)
      requires Valid() && 1 <= p <= |providers| && 1 <= id <= |services|
      ensures providers[p - 1].service == Some(id) <==>
                services[id - 1].provider == p || services[id - 1].pending == Some(p)
      ensures providers[p - 1].service == Some(id) ==> !providers[p - 1].retired
    {
      assert ProviderAt(providers, services, p - 1) && ServiceAt(providers, services, id - 1);
    }
  }
}
