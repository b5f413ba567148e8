/** The work notifications of a Service: one receiver at a time, moved at a handover, and a fault latch. */
module SessionEvents {
  import opened Options
  import opened Capabilities
  import opened KernelEffects
  import opened ServiceBindings

  datatype Receiver = Receiver(owner: nat, slot: nat)

  datatype Event = Event(initialized: bool, receiver: Option<Receiver>, faulted: bool)

  datatype Client = Client(service: nat, owner: nat, slot: nat, ready: bool, closed: bool)

  predicate ServiceIndexed(id: nat) {
    1 <= id <= SERVICES
  }

  class Events {
    var services: seq<Event>
    var clients: seq<Option<Client>>

    ghost predicate Valid()
      reads this
    {
      && |services| == SERVICES && |clients| == SESSIONS
      && forall i :: 0 <= i < SESSIONS && clients[i].Some? ==> ServiceIndexed(clients[i].value.service)
    }

    constructor ()
      ensures Valid()
      ensures forall i :: 0 <= i < SERVICES ==> services[i] == Event(false, None, false)
      ensures forall i :: 0 <= i < SESSIONS ==> clients[i].None?
    {
      services, clients := seq(SERVICES, _ => Event(false, None, false)), seq(SESSIONS, _ => None);
    }

    /** The event of a service after its fault latch was set or left alone. */
    ghost function Latched(id: nat, faulted: bool): seq<Event>
      requires Valid()
      reads this
    {
      if !ServiceIndexed(id) then services else services[id - 1 := services[id - 1].(faulted := faulted)]
    }

    method Install(kernel: Kernel, service: nat, owner: nat, slot: nat) returns (r: Status)
      requires Valid()
      modifies `services, kernel`eventHolders, kernel`failures
      ensures Valid() && kernel.failures >= old(kernel.failures)
      ensures !ServiceIndexed(service) ==>
                && r == Err(InvalidArgument) && services == old(services)
                && kernel.eventHolders == old(kernel.eventHolders)
      ensures ServiceIndexed(service) ==> services == old(services)[service - 1 := services[service - 1]]
      ensures r.Ok? ==>
                && !old(services)[service - 1].faulted && old(services)[service - 1].receiver.None?
                && services[service - 1] == Event(true, Some(Receiver(owner, slot)), false)
                && kernel.eventHolders == old(kernel.eventHolders) + {Holding(service, owner)}
      ensures ServiceIndexed(service) && r.Err? ==>
                && services[service - 1].receiver == old(services)[service - 1].receiver
                && (services[service - 1].faulted <==> r.error.Fatal?)
                && (kernel.eventHolders == old(kernel.eventHolders)
                    || (r.error.Fatal? && !old(services)[service - 1].faulted
                        && old(services)[service - 1].receiver.None?
                        && kernel.eventHolders == old(kernel.eventHolders) + {Holding(service, owner)}))
      ensures ServiceIndexed(service) && r.Err? ==>
                !old(services)[service - 1].faulted && old(services)[service - 1].receiver.None? ==>
                  owner == 0 || !(23 <= slot < 224) || kernel.failures > old(kernel.failures)
      ensures r.Ok? ==> owner != 0 && 23 <= slot < 224 && kernel.failures == old(kernel.failures)
    {
      if !ServiceIndexed(service) {
        return Err(InvalidArgument);
      }
      var i := service - 1;
      if services[i].faulted {
        return Err(Fatal);
      }
      if owner == 0 || !(23 <= slot < 224) || services[i].receiver.Some? {
        return Err(InvalidArgument);
      }
      if !services[i].initialized {
        var created := kernel.Attempt();
        if created.Err? {
          services := services[i := services[i].(faulted := true)];
          return Err(Fatal);
        }
        services := services[i := services[i].(initialized := true)];
      }
      r := kernel.GrantEvent(service, owner);
      if r.Err? {
        services := services[i := services[i].(faulted := r.error.Fatal?)];
        return;
      }
      services := services[i := services[i].(receiver := Some(Receiver(owner, slot)))];
    }

    /** Takes the event away from its receiver; only a foreign receiver is refused without a failure. */
    method Withdraw(kernel: Kernel, service: nat, owner: nat) returns (r: Status)
      requires Valid()
      modifies `services, kernel`eventHolders, kernel`failures
      ensures Valid() && kernel.failures >= old(kernel.failures)
      ensures !ServiceIndexed(service) ==>
                && r == Err(InvalidArgument) && services == old(services)
                && kernel.eventHolders == old(kernel.eventHolders)
      ensures ServiceIndexed(service) ==> services == old(services)[service - 1 := services[service - 1]]
      ensures r.Ok? ==>
                && services[service - 1] == old(services)[service - 1].(receiver := None)
                && !services[service - 1].faulted
                && kernel.eventHolders == if old(services)[service - 1].receiver.None? then old(kernel.eventHolders)
                                          else old(kernel.eventHolders) - {Holding(service, owner)}
      ensures ServiceIndexed(service) && r.Err? ==>
                && services == old(Latched(service, r.error.Fatal?))
                && (kernel.eventHolders == old(kernel.eventHolders)
                    || kernel.eventHolders == old(kernel.eventHolders) - {Holding(service, owner)})
      ensures ServiceIndexed(service) && r.Err? && !old(services)[service - 1].faulted ==>
                var receiver := old(services)[service - 1].receiver;
                receiver.Some? && (receiver.value.owner != owner
                                   || (r.error.Fatal? && kernel.failures > old(kernel.failures)))
      ensures r.Ok? ==> kernel.failures == old(kernel.failures)
      ensures ServiceIndexed(service) && !old(services)[service - 1].faulted ==>
                var receiver := old(services)[service - 1].receiver;
                receiver.Some? && receiver.value.owner != owner ==>
                  && r == Err(PermissionDenied) && services == old(services)
                  && kernel.eventHolders == old(kernel.eventHolders) && kernel.failures == old(kernel.failures)
    {
      if !ServiceIndexed(service) {
        return Err(InvalidArgument);
      }
      var i := service - 1;
      if services[i].faulted {
        return Err(Fatal);
      }
      if services[i].receiver.None? {
        return Ok;
      }
      if services[i].receiver.value.owner != owner {
        return Err(PermissionDenied);
      }
      r := kernel.RevokeEvent(service, owner);
      if r.Err? {
        services := services[i := services[i].(faulted := true)];
        return Err(Fatal);
      }
      services := services[i := services[i].(receiver := None)];
    }

    /** The session may be given the right to notify the service, or has it already. */
    predicate CanConnect(session: nat, service: nat, owner: nat, slot: nat)
      requires Valid()
      reads this
    {
      && SessionIndex(session).Some? && ServiceIndexed(service) && !services[service - 1].faulted
      && services[service - 1].initialized
      && owner != 0 && 23 <= slot < 224
      && (clients[SessionIndex(session).value].Some? ==>
            clients[SessionIndex(session).value].value == Client(service, owner, slot, true, false))
    }

    /** Gives a session the right to notify the service. */
    method Connect(kernel: Kernel, session: nat, service: nat, owner: nat, slot: nat) returns (r: Status)
      requires Valid()
      modifies `services, `clients, kernel`failures
      ensures Valid() && kernel.failures >= old(kernel.failures)
      ensures services == if r == Err(Fatal) && kernel.failures > old(kernel.failures) then old(Latched(service, true))
                          else old(services)
      ensures r == Err(Fatal) ==>
                || kernel.failures > old(kernel.failures)
                || (ServiceIndexed(service) && old(services)[service - 1].faulted)
                || (SessionIndex(session).Some? && old(clients)[SessionIndex(session).value].Some?
                    && !old(clients)[SessionIndex(session).value].value.ready)
      ensures clients == old(clients) ||
              (SessionIndex(session).Some? && clients[SessionIndex(session).value].Some?
               && clients == old(clients)[SessionIndex(session).value := clients[SessionIndex(session).value]]
               && clients[SessionIndex(session).value].value.service == service)
      ensures r.Ok? ==> old(CanConnect(session, service, owner, slot))
      ensures old(CanConnect(session, service, owner, slot)) ==> r.Ok? || kernel.failures > old(kernel.failures)
      ensures r.Err? && !r.error.Fatal? ==> clients == old(clients)
      ensures r.Ok? ==>
                && SessionIndex(session).Some?
                && clients[SessionIndex(session).value] == Some(Client(service, owner, slot, true, false))
      ensures r.Ok? ==> kernel.failures == old(kernel.failures)
    {
      var index := SessionIndex(session);
      if index.None? || !ServiceIndexed(service) {
        return Err(InvalidArgument);
      }
      if services[service - 1].faulted {
        return Err(Fatal);
      }
      if !services[service - 1].initialized || owner == 0 || !(23 <= slot < 224) {
        return Err(InvalidArgument);
      }
      if clients[index.value].Some? {
        var c := clients[index.value].value;
        if c.service != service || c.owner != owner || c.slot != slot {
          return Err(PermissionDenied);
        }
        if c.ready && !c.closed {
          return Ok;
        }
        return Err(if !c.ready then Fatal else IllegalOperation);
      }
      r := kernel.Attempt();
      if r.Ok? || r.error.Fatal? {
        clients := clients[index.value := Some(Client(service, owner, slot, r.Ok?, false))];
      }
      if r == Err(Fatal) {
        services := services[service - 1 := services[service - 1].(faulted := true)];
      }
    }

    method Close(kernel: Kernel, session: nat) returns (r: Status)
      requires Valid()
      modifies `services, `clients, kernel`failures
      ensures Valid() && kernel.failures >= old(kernel.failures)
      ensures r.Err? && kernel.failures > old(kernel.failures) ==>
                && SessionIndex(session).Some? && old(clients)[SessionIndex(session).value].Some?
                && services == if r.error.Fatal?
                               then old(Latched(clients[SessionIndex(session).value].value.service, true))
                               else old(services)
      ensures kernel.failures == old(kernel.failures) ==> services == old(services)
      ensures clients == old(clients) ||
              (r.Ok? && SessionIndex(session).Some? && old(clients)[SessionIndex(session).value].Some?
               && clients == old(clients)[SessionIndex(session).value :=
                                          Some(old(clients)[SessionIndex(session).value].value.(closed := true))])
      ensures r.Ok? ==>
                && SessionIndex(session).Some?
                && (clients[SessionIndex(session).value].Some? ==> clients[SessionIndex(session).value].value.closed)
      ensures r.Err? ==>
                || SessionIndex(session).None? || kernel.failures > old(kernel.failures)
                || (old(clients)[SessionIndex(session).value].Some?
                    && !old(clients)[SessionIndex(session).value].value.ready)
      ensures r.Ok? ==>
                && kernel.failures == old(kernel.failures)
                && var c := old(clients)[SessionIndex(session).value]; c.Some? ==> c.value.ready || c.value.closed
    {
      var index := SessionIndex(session);
      if index.None? {
        return Err(InvalidArgument);
      }
      if clients[index.value].None? || clients[index.value].value.closed {
        return Ok;
      }
      var c := clients[index.value].value;
      if !c.ready {
        return Err(Fatal);
      }
      r := kernel.Attempt();
      if r.Err? {
        if r.error.Fatal? {
          services := services[c.service - 1 := services[c.service - 1].(faulted := true)];
        }
        return;
      }
      clients := clients[index.value := Some(c.(closed := true))];
    }
  }
}
