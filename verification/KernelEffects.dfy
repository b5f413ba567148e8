/** The pages that really are mapped, and the capabilities that really are held. Alpha never reads
    them: each effect answers Ok when it took place, a Fatal or uncertain answer when it may have, and
    any other error when it did not. */
module KernelEffects {
  import opened Capabilities

  const PAGE: nat := 4096

  /** Addresses of a process that were reserved for as many pages. */
  datatype Span = Span(owner: nat, address: nat, pages: nat)

  datatype Mapped = Mapped(owner: nat, address: nat, page: nat)

  datatype Holding = Holding(service: nat, owner: nat)

  datatype MapStatus = Installed | NotInstalled(error: CapabilityError) | MaybeInstalled(error: CapabilityError)

  function Range(first: nat, count: nat): (r: set<nat>)
    ensures forall p :: p in r <==> first <= p < first + count
  {
    if count == 0 then {} else {first + count - 1} + Range(first, count - 1)
  }

  class Kernel {
    ghost var mapped: set<Mapped>
    ghost var receivers: set<Holding>
    ghost var eventHolders: set<Holding>
    var taken: set<nat>
    ghost var zeroed: set<nat>
    ghost var reserved: set<Span>
    ghost var failures: nat

    constructor ()
      ensures mapped == {} && receivers == {} && eventHolders == {} && taken == {} && reserved == {}
    {
      mapped, receivers, eventHolders, taken, zeroed, reserved, failures := {}, {}, {}, {}, {}, {}, 0;
    }

    /** An effect that changes nothing this model follows. */
    method Attempt() returns (r: Status)
      modifies `failures
      ensures r.Ok? ==> failures == old(failures)
      ensures r.Err? ==> failures > old(failures)
    {
      r := *;
      if r.Err? {
        failures := failures + 1;
      }
    }

    /** Fills a page with zeros. */
    method Zero(page: nat) returns (r: Status)
      modifies `zeroed, `failures
      ensures zeroed == old(zeroed) || zeroed == old(zeroed) + {page}
      ensures r.Ok? ==> zeroed == old(zeroed) + {page} && failures == old(failures)
      ensures r.Err? ==> failures > old(failures)
    {
      r := *;
      var happened: bool := *;
      if r.Ok? || happened {
        zeroed := zeroed + {page};
      }
      if r.Err? {
        failures := failures + 1;
      }
    }

    /** Addresses in a process for as many pages. */
    method Reserve(owner: nat, pages: nat) returns (r: Outcome<nat>)
      modifies `reserved, `failures
      ensures r.Value? ==> reserved == old(reserved) + {Span(owner, r.value, pages)} && failures == old(failures)
      ensures r.Error? ==> reserved == old(reserved) && failures > old(failures)
    {
      r := *;
      if r.Value? {
        reserved := reserved + {Span(owner, r.value, pages)};
      } else {
        failures := failures + 1;
      }
    }

    /** Backing pages that were never handed out before. */
    method Allocate(pages: nat) returns (r: Outcome<nat>)
      modifies `taken, `failures
      ensures r.Value? ==>
                && failures == old(failures)
                && forall p :: p in taken <==> p in old(taken) || r.value <= p < r.value + pages
      ensures r.Value? ==> forall p :: r.value <= p < r.value + pages ==> p !in old(taken)
      ensures r.Error? ==> taken == old(taken) && failures > old(failures)
    {
      r := *;
      if r.Value? && forall p :: r.value <= p < r.value + pages ==> p !in taken {
        taken := taken + Range(r.value, pages);
      } else {
        r := if r.Value? then Error(OtherError) else r;
        failures := failures + 1;
      }
    }

    /** Maps a page, at an address that was reserved for the process. */
    method Map(owner: nat, address: nat, page: nat, ghost span: Span, ghost k: nat) returns (r: MapStatus)
      requires span in reserved && span.owner == owner && k < span.pages && address == span.address + k * PAGE
      modifies `mapped, `failures
      ensures r.Installed? ==> mapped == old(mapped) + {Mapped(owner, address, page)} && failures == old(failures)
      ensures r.NotInstalled? ==> mapped == old(mapped) && failures > old(failures)
      ensures r.MaybeInstalled? ==>
                && (mapped == old(mapped) || mapped == old(mapped) + {Mapped(owner, address, page)})
                && failures > old(failures)
    {
      r := *;
      var happened: bool := *;
      if r.Installed? || (r.MaybeInstalled? && happened) {
        mapped := mapped + {Mapped(owner, address, page)};
      }
      if !r.Installed? {
        failures := failures + 1;
      }
    }

    method Unmap(owner: nat, address: nat, page: nat) returns (r: Status)
      modifies `mapped, `failures
      ensures r.Ok? ==> mapped == old(mapped) - {Mapped(owner, address, page)} && failures == old(failures)
      ensures r.Err? ==>
                && (mapped == old(mapped) || mapped == old(mapped) - {Mapped(owner, address, page)})
                && failures > old(failures)
    {
      r := *;
      var happened: bool := *;
      if r.Ok? || happened {
        mapped := mapped - {Mapped(owner, address, page)};
      }
      if r.Err? {
        failures := failures + 1;
      }
    }

    method Grant(service: nat, owner: nat) returns (r: Status)
      modifies `receivers, `failures
      ensures r.Ok? ==> receivers == old(receivers) + {Holding(service, owner)} && failures == old(failures)
      ensures r.Err? ==>
                && (receivers == old(receivers)
                    || (r.error.Fatal? && receivers == old(receivers) + {Holding(service, owner)}))
                && failures > old(failures)
    {
      r := *;
      var happened: bool := *;
      if r.Ok? || (r == Err(Fatal) && happened) {
        receivers := receivers + {Holding(service, owner)};
      }
      if r.Err? {
        failures := failures + 1;
      }
    }

    /** Taking a receiver back; a failure is Fatal, except that the holder may not be found at all. */
    method Revoke(service: nat, owner: nat) returns (r: Status)
      modifies `receivers, `failures
      ensures r.Ok? ==> receivers == old(receivers) - {Holding(service, owner)} && failures == old(failures)
      ensures r.Err? ==>
                && (receivers == old(receivers)
                    || (r.error.Fatal? && receivers == old(receivers) - {Holding(service, owner)}))
                && failures > old(failures)
    {
      r := *;
      var happened: bool := *;
      if r.Ok? || (r == Err(Fatal) && happened) {
        receivers := receivers - {Holding(service, owner)};
      }
      if r.Err? {
        failures := failures + 1;
      }
    }

    method GrantEvent(service: nat, owner: nat) returns (r: Status)
      modifies `eventHolders, `failures
      ensures r.Ok? ==> eventHolders == old(eventHolders) + {Holding(service, owner)} && failures == old(failures)
      ensures r.Err? ==>
                && (eventHolders == old(eventHolders)
                    || (r.error.Fatal? && eventHolders == old(eventHolders) + {Holding(service, owner)}))
                && failures > old(failures)
    {
      r := *;
      var happened: bool := *;
      if r.Ok? || (r == Err(Fatal) && happened) {
        eventHolders := eventHolders + {Holding(service, owner)};
      }
      if r.Err? {
        failures := failures + 1;
      }
    }

    /** Taking an event receiver back; every failure leaves the outcome unknown. */
    method RevokeEvent(service: nat, owner: nat) returns (r: Status)
      modifies `eventHolders, `failures
      ensures r.Ok? ==> eventHolders == old(eventHolders) - {Holding(service, owner)} && failures == old(failures)
      ensures r.Err? ==>
                && (eventHolders == old(eventHolders) || eventHolders == old(eventHolders) - {Holding(service, owner)})
                && failures > old(failures)
    {
      r := *;
      var happened: bool := *;
      if r.Ok? || happened {
        eventHolders := eventHolders - {Holding(service, owner)};
      }
      if r.Err? {
        failures := failures + 1;
      }
    }
  }
}
