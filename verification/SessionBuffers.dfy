/** Opaque session buffers: their pages are mapped for the client and for the bound Provider, and move
    to the next Provider at a handover. */
module SessionBuffers {
  import opened Options
  import opened Capabilities
  import opened KernelEffects
  import opened ServiceBindings

  datatype Mapping = Mapping(owner: nat, address: nat, installed: nat)

  datatype Buffer = Buffer(service: nat, physical: nat, pages: nat, client: Mapping, provider: Mapping,
                           candidate: Option<Mapping>, closed: bool, ready: bool)

  datatype View = View(address: nat, bytes: nat)

  predicate Open(b: Buffer) {
    b.ready && !b.closed
  }

  /** `m` is one of the pages that a mapping records as installed. */
  predicate On(mapping: Mapping, physical: nat, m: Mapped) {
    && m.owner == mapping.owner && physical <= m.page < physical + mapping.installed
    && m.address == mapping.address + (m.page - physical) * PAGE
  }

  predicate OnCandidate(b: Buffer, m: Mapped) {
    b.candidate.Some? && On(b.candidate.value, b.physical, m)
  }

  predicate Tracks(b: Buffer, m: Mapped) {
    On(b.client, b.physical, m) || On(b.provider, b.physical, m) || OnCandidate(b, m)
  }

  predicate InPages(b: Buffer, page: nat) {
    b.physical <= page < b.physical + b.pages
  }

  /** The mappings of one buffer's pages. */
  ghost function PagesOf(mapped: set<Mapped>, b: Buffer): set<Mapped> {
    set m | m in mapped && InPages(b, m.page)
  }

  ghost predicate BufferSound(b: Buffer) {
    && b.client.installed <= b.pages && b.provider.installed <= b.pages
    && (b.candidate.Some? ==> b.candidate.value.installed <= b.pages && b.provider.installed == 0 && Open(b)
                              && b.candidate.value.owner != b.client.owner)
    && b.client.owner != b.provider.owner && (b.ready || b.closed)
  }

  /** Every mapping of the buffer's pages is recorded. */
  ghost predicate Tracked(b: Buffer, pages: set<Mapped>) {
    BufferSound(b) && forall m :: m in pages ==> Tracks(b, m)
  }

  /** Every recorded mapping of the buffer's pages is really there. */
  ghost predicate Exact(b: Buffer, pages: set<Mapped>) {
    forall m :: Tracks(b, m) ==> m in pages
  }

  // ---- one mapping ----

  method MapPages(kernel: Kernel, mapping: Mapping, physical: nat, pages: nat) returns (mapping': Mapping, r: Status)
    requires mapping.installed == 0 && Span(mapping.owner, mapping.address, pages) in kernel.reserved
    modifies kernel`mapped, kernel`failures
    ensures mapping' == mapping.(installed := mapping'.installed) && mapping'.installed <= pages
    ensures forall m :: m in old(kernel.mapped) ==> m in kernel.mapped
    ensures forall m :: m in kernel.mapped ==> m in old(kernel.mapped) || On(mapping', physical, m)
    ensures r.Ok? ==> mapping'.installed == pages && kernel.failures == old(kernel.failures)
    ensures r.Ok? ==> forall m :: On(mapping', physical, m) ==> m in kernel.mapped
    ensures r.Err? ==> kernel.failures > old(kernel.failures)
  {
    mapping' := mapping;
    for page := 0 to pages
      invariant mapping' == mapping.(installed := page)
      invariant forall m :: m in old(kernel.mapped) ==> m in kernel.mapped
      invariant forall m :: m in kernel.mapped ==> m in old(kernel.mapped) || On(mapping', physical, m)
      invariant forall m :: On(mapping', physical, m) ==> m in kernel.mapped
      invariant kernel.failures == old(kernel.failures)
    {
      var result := kernel.Map(mapping.owner, mapping.address + page * PAGE, physical + page,
                               Span(mapping.owner, mapping.address, pages), page);
      match result {
        case Installed =>
          mapping' := mapping'.(installed := page + 1);
        case NotInstalled(error) =>
          return mapping', Err(error);
        case MaybeInstalled(error) =>
          mapping' := mapping'.(installed := page + 1);
          return mapping', Err(error);
      }
    }
    return mapping', Ok;
  }

  method UnmapPages(kernel: Kernel, mapping: Mapping, physical: nat) returns (mapping': Mapping, r: Status)
    modifies kernel`mapped, kernel`failures
    ensures mapping' == mapping.(installed := mapping'.installed) && mapping'.installed <= mapping.installed
    ensures forall m :: m in kernel.mapped ==> m in old(kernel.mapped)
    ensures forall m :: m in old(kernel.mapped) && !On(mapping, physical, m) ==> m in kernel.mapped
    ensures forall m :: m in kernel.mapped && On(mapping, physical, m) ==> On(mapping', physical, m)
    ensures r.Ok? ==> mapping'.installed == 0 && kernel.failures == old(kernel.failures)
    ensures r.Err? ==> kernel.failures > old(kernel.failures)
  {
    mapping' := mapping;
    while mapping'.installed != 0
      invariant mapping' == mapping.(installed := mapping'.installed) && mapping'.installed <= mapping.installed
      invariant forall m :: m in kernel.mapped ==> m in old(kernel.mapped)
      invariant forall m :: m in old(kernel.mapped) && !On(mapping, physical, m) ==> m in kernel.mapped
      invariant forall m :: m in kernel.mapped && On(mapping, physical, m) ==> On(mapping', physical, m)
      invariant kernel.failures == old(kernel.failures)
      decreases mapping'.installed
    {
      var page: nat := mapping'.installed - 1;
      var result := kernel.Unmap(mapping.owner, mapping.address + page * PAGE, physical + page);
      if result.Err? {
        return mapping', result;
      }
      mapping' := mapping'.(installed := page);
    }
    return mapping', Ok;
  }

  // ---- the table ----

  ghost function ViewAt(entries: seq<Option<Buffer>>, mapped: set<Mapped>, i: int): set<Mapped> {
    if 0 <= i < |entries| && entries[i].Some? then PagesOf(mapped, entries[i].value) else {}
  }

  ghost predicate EntryAt(entries: seq<Option<Buffer>>, backing: map<nat, nat>, mapped: set<Mapped>, i: int) {
    0 <= i < |entries| && entries[i].Some? ==>
      && Tracked(entries[i].value, ViewAt(entries, mapped, i))
      && forall p :: InPages(entries[i].value, p) ==> p in backing && backing[p] == i
  }

  ghost predicate PageAt(entries: seq<Option<Buffer>>, backing: map<nat, nat>, p: nat) {
    p in backing ==> backing[p] < |entries| && entries[backing[p]].Some? && InPages(entries[backing[p]].value, p)
  }

  /** Every mapped page belongs to exactly one buffer, which records the mapping. `backing` says which. */
  ghost predicate AllTracked(entries: seq<Option<Buffer>>, backing: map<nat, nat>, mapped: set<Mapped>) {
    && (forall i {:trigger EntryAt(entries, backing, mapped, i)} :: EntryAt(entries, backing, mapped, i))
    && (forall p {:trigger PageAt(entries, backing, p)} :: PageAt(entries, backing, p))
    && (forall m :: m in mapped ==> m.page in backing)
  }

  /** Whoever may have pages of the buffer mapped has addresses reserved for them. */
  ghost predicate Reserved(b: Buffer, reserved: set<Span>) {
    && (Open(b) || b.client.installed > 0 ==> Span(b.client.owner, b.client.address, b.pages) in reserved)
    && (Open(b) || b.provider.installed > 0 ==> Span(b.provider.owner, b.provider.address, b.pages) in reserved)
    && (b.candidate.Some? ==> Span(b.candidate.value.owner, b.candidate.value.address, b.pages) in reserved)
  }

  ghost predicate ReservedAt(entries: seq<Option<Buffer>>, reserved: set<Span>, i: int) {
    0 <= i < |entries| && entries[i].Some? ==> Reserved(entries[i].value, reserved)
  }

  /** Every buffer is at reserved addresses. */
  ghost predicate AllReserved(entries: seq<Option<Buffer>>, reserved: set<Span>) {
    forall i {:trigger ReservedAt(entries, reserved, i)} :: ReservedAt(entries, reserved, i)
  }

  lemma ReservedStill(e0: seq<Option<Buffer>>, r0: set<Span>, i: nat, b: Buffer, r1: set<Span>)
    requires AllReserved(e0, r0) && r0 <= r1 && i < |e0| && ReservedAt(e0[i := Some(b)], r1, i)
    ensures AllReserved(e0[i := Some(b)], r1)
  {
    var e1 := e0[i := Some(b)];
    forall j ensures ReservedAt(e1, r1, j) {
      assert ReservedAt(e0, r0, j);
    }
  }

  lemma MoreReserved(entries: seq<Option<Buffer>>, r0: set<Span>, r1: set<Span>)
    requires AllReserved(entries, r0) && r0 <= r1
    ensures AllReserved(entries, r1)
  {
    forall j ensures ReservedAt(entries, r1, j) {
      assert ReservedAt(entries, r0, j);
    }
  }

  ghost predicate SameAt(e0: seq<Option<Buffer>>, m0: set<Mapped>, e1: seq<Option<Buffer>>, m1: set<Mapped>, i: int) {
    0 <= i < |e0| && i < |e1| && e1[i] == e0[i] && ViewAt(e1, m1, i) == ViewAt(e0, m0, i)
  }

  /** Changes within one buffer's pages, recorded in that buffer, leave every other buffer as it was. */
  lemma EntryReplaced(e0: seq<Option<Buffer>>, backing: map<nat, nat>, m0: set<Mapped>, m1: set<Mapped>, i: nat,
                      b: Buffer)
    requires AllTracked(e0, backing, m0) && i < |e0| && e0[i].Some?
    requires b.physical == e0[i].value.physical && b.pages == e0[i].value.pages && Tracked(b, PagesOf(m1, b))
    requires forall m :: (m in m0) != (m in m1) ==> InPages(b, m.page)
    ensures AllTracked(e0[i := Some(b)], backing, m1)
    ensures forall j {:trigger ViewAt(e0[i := Some(b)], m1, j)} ::
              j != i ==> ViewAt(e0[i := Some(b)], m1, j) == ViewAt(e0, m0, j)
  {
    var e1 := e0[i := Some(b)];
    assert EntryAt(e0, backing, m0, i);
    forall j | j != i ensures ViewAt(e1, m1, j) == ViewAt(e0, m0, j) && EntryAt(e1, backing, m1, j) {
      assert EntryAt(e0, backing, m0, j);
    }
    forall p ensures PageAt(e1, backing, p) {
      assert PageAt(e0, backing, p);
    }
    assert EntryAt(e1, backing, m1, i);
    forall m | m in m1 ensures m.page in backing {
      if m !in m0 {
        assert InPages(b, m.page);
      }
    }
  }

  /** When no entry and no view changed, nothing did. */
  lemma AllSame(e0: seq<Option<Buffer>>, backing: map<nat, nat>, m0: set<Mapped>, e1: seq<Option<Buffer>>,
                m1: set<Mapped>)
    requires AllTracked(e0, backing, m0) && AllTracked(e1, backing, m1) && |e1| == |e0|
    requires forall i {:trigger SameAt(e0, m0, e1, m1, i)} :: 0 <= i < |e0| ==> SameAt(e0, m0, e1, m1, i)
    ensures e1 == e0 && m1 == m0
  {
    forall i | 0 <= i < |e0| ensures e1[i] == e0[i] {
      assert SameAt(e0, m0, e1, m1, i);
    }
    forall m ensures m in m0 <==> m in m1 {
      if m.page in backing {
        assert PageAt(e0, backing, m.page) && SameAt(e0, m0, e1, m1, backing[m.page]);
        assert m in ViewAt(e0, m0, backing[m.page]) <==> m in ViewAt(e1, m1, backing[m.page]);
      }
    }
  }

  // ---- what the operations do to one entry ----

  predicate Involved(e: Option<Buffer>, service: nat) {
    e.Some? && e.value.service == service && Open(e.value)
  }

  ghost predicate ExactAt(entries: seq<Option<Buffer>>, mapped: set<Mapped>, i: int) {
    0 <= i < |entries| && entries[i].Some? && Exact(entries[i].value, ViewAt(entries, mapped, i))
  }

  /** The Provider's view of an open buffer of the service may have shrunk; nothing else changed. */
  ghost predicate ShrunkAt(e0: seq<Option<Buffer>>, m0: set<Mapped>, e1: seq<Option<Buffer>>, m1: set<Mapped>,
                           service: nat, i: int) {
    && 0 <= i < |e0| && i < |e1|
    && if !Involved(e0[i], service) then SameAt(e0, m0, e1, m1, i)
       else
         && e1[i].Some?
         && var installed := e1[i].value.provider.installed;
            e1[i].value == e0[i].value.(provider := e0[i].value.provider.(installed := installed))
            && e1[i].value.provider.installed <= e0[i].value.provider.installed
  }

  /** The Provider's view of an open buffer of the service is gone. */
  ghost predicate WithdrawnAt(e0: seq<Option<Buffer>>, m0: set<Mapped>, e1: seq<Option<Buffer>>, m1: set<Mapped>,
                              service: nat, owner: nat, i: int) {
    && ShrunkAt(e0, m0, e1, m1, service, i)
    && (Involved(e0[i], service) ==>
          && e0[i].value.provider.owner == owner && e1[i].value.provider.installed == 0
          && (ExactAt(e0, m0, i) ==> ExactAt(e1, m1, i)))
  }

  /** An open buffer of the service may have gained a candidate view. */
  ghost predicate CandidateAt(e0: seq<Option<Buffer>>, m0: set<Mapped>, e1: seq<Option<Buffer>>, m1: set<Mapped>,
                              service: nat, owner: nat, i: int) {
    && 0 <= i < |e0| && i < |e1|
    && (SameAt(e0, m0, e1, m1, i) ||
        (&& Involved(e0[i], service) && e1[i].Some? && e1[i].value.candidate.Some?
         && e0[i].value.candidate.None? && e0[i].value.provider.installed == 0 && e0[i].value.client.owner != owner
         && e1[i].value == e0[i].value.(candidate := e1[i].value.candidate)
         && e1[i].value.candidate.value.owner == owner
         && (forall m :: m in ViewAt(e0, m0, i) ==> m in ViewAt(e1, m1, i))
         && (forall m :: m in ViewAt(e1, m1, i) ==> m in ViewAt(e0, m0, i) || OnCandidate(e1[i].value, m))))
  }

  /** An open buffer of the service has a complete candidate view. */
  ghost predicate StagedAt(e0: seq<Option<Buffer>>, m0: set<Mapped>, e1: seq<Option<Buffer>>, m1: set<Mapped>,
                           service: nat, owner: nat, i: int) {
    && CandidateAt(e0, m0, e1, m1, service, owner, i)
    && (Involved(e0[i], service) ==>
          && e1[i].value.candidate.Some? && e1[i].value.candidate.value.installed == e0[i].value.pages
          && (e0[i].value.provider.owner == owner ==>
                e1[i].value.candidate.value.address == e0[i].value.provider.address)
          && e0[i].value.candidate.None?
          && (forall m :: OnCandidate(e1[i].value, m) ==> m in ViewAt(e1, m1, i)))
  }

  /** The candidate view of a buffer of the service may have shrunk or gone. */
  ghost predicate RolledBackAt(e0: seq<Option<Buffer>>, m0: set<Mapped>, e1: seq<Option<Buffer>>, m1: set<Mapped>,
                               service: nat, i: int) {
    && 0 <= i < |e0| && i < |e1|
    && (SameAt(e0, m0, e1, m1, i) ||
        (&& e0[i].Some? && e0[i].value.service == service && e0[i].value.candidate.Some? && e1[i].Some?
         && e1[i].value == e0[i].value.(candidate := e1[i].value.candidate)
         && (e1[i].value.candidate.Some? ==>
               var (c, c') := (e0[i].value.candidate.value, e1[i].value.candidate.value);
               c' == c.(installed := c'.installed))
         && (forall m :: m in ViewAt(e1, m1, i) ==> m in ViewAt(e0, m0, i))
         && (forall m :: m in ViewAt(e0, m0, i) && !OnCandidate(e0[i].value, m) ==> m in ViewAt(e1, m1, i))
         && (forall m :: m in ViewAt(e1, m1, i) && OnCandidate(e0[i].value, m) ==> OnCandidate(e1[i].value, m))))
  }

  predicate HasCandidate(e: Option<Buffer>, service: nat) {
    e.Some? && e.value.service == service && e.value.candidate.Some?
  }

  /** Nothing stands in the way of mapping the buffer for `owner`. */
  predicate Stageable(e: Option<Buffer>, service: nat, owner: nat) {
    Involved(e, service) ==> e.value.candidate.None? && e.value.provider.installed == 0 && e.value.client.owner != owner
  }

  function Adopted(e: Option<Buffer>, service: nat): Option<Buffer> {
    if HasCandidate(e, service) then Some(e.value.(provider := e.value.candidate.value, candidate := None)) else e
  }

  /** An open buffer of the service is now mapped for `owner`, and all its pages are. */
  ghost predicate InstalledAt(e0: seq<Option<Buffer>>, m0: set<Mapped>, e1: seq<Option<Buffer>>, m1: set<Mapped>,
                              service: nat, owner: nat, i: int) {
    && 0 <= i < |e0| && i < |e1|
    && if !Involved(e0[i], service) then e1[i] == Adopted(e0[i], service) && ViewAt(e1, m1, i) == ViewAt(e0, m0, i)
       else
         && e1[i].Some? && e0[i].value.candidate.None? && e0[i].value.client.owner != owner
         && e1[i].value == e0[i].value.(provider := Mapping(owner, e1[i].value.provider.address, e0[i].value.pages))
         && (e0[i].value.provider.owner == owner ==> e1[i].value.provider.address == e0[i].value.provider.address)
         && (ExactAt(e0, m0, i) ==> ExactAt(e1, m1, i))
  }

  /** At most a candidate view of an open buffer of the service was left behind or removed. */
  ghost predicate DisturbedAt(e0: seq<Option<Buffer>>, m0: set<Mapped>, e1: seq<Option<Buffer>>, m1: set<Mapped>,
                              service: nat, owner: nat, i: int) {
    && 0 <= i < |e0| && i < |e1|
    && (SameAt(e0, m0, e1, m1, i) ||
        (&& e0[i].Some? && e1[i].Some? && e0[i].value.service == service
         && e1[i].value == e0[i].value.(candidate := e1[i].value.candidate)
         && (e1[i].value.candidate.Some? ==>
               if e0[i].value.candidate.Some? then
                 e1[i].value.candidate.value.owner == e0[i].value.candidate.value.owner
               else e1[i].value.candidate.value.owner == owner)))
  }

  /** Staging and rolling back one buffer. */
  lemma Restored(e0: seq<Option<Buffer>>, backing: map<nat, nat>, m0: set<Mapped>, e1: seq<Option<Buffer>>,
                 m1: set<Mapped>,
                 e2: seq<Option<Buffer>>, m2: set<Mapped>, service: nat, owner: nat, i: nat)
    requires AllTracked(e0, backing, m0)
    requires CandidateAt(e0, m0, e1, m1, service, owner, i) && RolledBackAt(e1, m1, e2, m2, service, i)
    ensures DisturbedAt(e0, m0, e2, m2, service, owner, i)
    ensures !HasCandidate(e0[i], service) && !HasCandidate(e2[i], service) ==> SameAt(e0, m0, e2, m2, i)
  {
    assert EntryAt(e0, backing, m0, i);
    if !HasCandidate(e0[i], service) && !HasCandidate(e2[i], service) && !SameAt(e0, m0, e1, m1, i) {
      forall m ensures m in ViewAt(e2, m2, i) <==> m in ViewAt(e0, m0, i) {
        assert m in ViewAt(e0, m0, i) ==> !OnCandidate(e1[i].value, m);
      }
    }
  }

  /** Staging and adopting one buffer. */
  lemma StagedAdopted(e0: seq<Option<Buffer>>, backing: map<nat, nat>, m0: set<Mapped>, e1: seq<Option<Buffer>>,
                      m1: set<Mapped>,
                      e2: seq<Option<Buffer>>, service: nat, owner: nat, i: nat)
    requires AllTracked(e0, backing, m0) && StagedAt(e0, m0, e1, m1, service, owner, i)
    requires i < |e2| && e2[i] == Adopted(e1[i], service)
    ensures InstalledAt(e0, m0, e2, m1, service, owner, i)
  {
    assert EntryAt(e0, backing, m0, i);
    assert ViewAt(e2, m1, i) == ViewAt(e1, m1, i);
    if Involved(e0[i], service) {
      assert e2[i].value.provider == e1[i].value.candidate.value;
      forall m | ExactAt(e0, m0, i) && Tracks(e2[i].value, m) ensures m in ViewAt(e2, m1, i) {
        assert On(e0[i].value.client, e0[i].value.physical, m) ==> Tracks(e0[i].value, m);
      }
    }
  }

  // ---- a new buffer ----

  /** Maps a fresh buffer for its client and its Provider. */
  method Populate(kernel: Kernel, b: Buffer) returns (b': Buffer, r: Status)
    requires b.client.installed == 0 && b.provider.installed == 0 && b.candidate.None? && !b.ready
    modifies kernel`mapped, kernel`zeroed, kernel`reserved, kernel`failures
    ensures old(kernel.reserved) <= kernel.reserved && Reserved(b', kernel.reserved)
    ensures r.Ok? ==>
              && Span(b'.client.owner, b'.client.address, b.pages) in kernel.reserved
              && Span(b'.provider.owner, b'.provider.address, b.pages) in kernel.reserved
    ensures r.Ok? ==> forall p :: InPages(b, p) ==> p in kernel.zeroed
    ensures kernel.failures >= old(kernel.failures) && (r.Err? ==> kernel.failures > old(kernel.failures))
    ensures b' == b.(client := b'.client, provider := b'.provider)
    ensures b'.client.owner == b.client.owner && b'.provider.owner == b.provider.owner
    ensures b'.client.installed <= b.pages && b'.provider.installed <= b.pages
    ensures forall m :: m in old(kernel.mapped) ==> m in kernel.mapped
    ensures forall m :: m in kernel.mapped ==> m in old(kernel.mapped) || Tracks(b', m)
    ensures r.Ok? ==> b'.client.installed == b.pages && b'.provider.installed == b.pages
    ensures r.Ok? ==> forall m :: Tracks(b', m) ==> m in kernel.mapped
    ensures r.Ok? ==> kernel.failures == old(kernel.failures)
  {
    b' := b;
    var reserved := kernel.Reserve(b.client.owner, b.pages);
    if reserved.Error? {
      return b', Err(reserved.error);
    }
    b' := b'.(client := b'.client.(address := reserved.value));
    reserved := kernel.Reserve(b.provider.owner, b.pages);
    if reserved.Error? {
      return b', Err(reserved.error);
    }
    b' := b'.(provider := b'.provider.(address := reserved.value));
    ghost var spans := kernel.reserved;
    for page := 0 to b.pages
      invariant kernel.reserved == spans
      invariant kernel.mapped == old(kernel.mapped) && kernel.failures == old(kernel.failures)
      invariant forall p :: b.physical <= p < b.physical + page ==> p in kernel.zeroed
    {
      var zeroed := kernel.Zero(b.physical + page);
      if zeroed.Err? {
        return b', zeroed;
      }
    }
    var client;
    client, r := MapPages(kernel, b'.client, b'.physical, b'.pages);
    b' := b'.(client := client);
    if r.Err? {
      return;
    }
    var provider;
    provider, r := MapPages(kernel, b'.provider, b'.physical, b'.pages);
    b' := b'.(provider := provider);
  }

  method Clear(kernel: Kernel, b: Buffer) returns (b': Buffer, clean: bool)
    requires b.candidate.None?
    modifies kernel`mapped, kernel`failures
    ensures kernel.failures >= old(kernel.failures)
    ensures b' == b.(client := b.client.(installed := b'.client.installed),
                     provider := b.provider.(installed := b'.provider.installed))
    ensures b'.client.installed <= b.client.installed && b'.provider.installed <= b.provider.installed
    ensures forall m :: m in kernel.mapped ==> m in old(kernel.mapped)
    ensures forall m :: m in old(kernel.mapped) && !Tracks(b, m) ==> m in kernel.mapped
    ensures forall m :: m in kernel.mapped && Tracks(b, m) ==> Tracks(b', m)
    ensures clean ==> b'.client.installed == 0 && b'.provider.installed == 0
  {
    var provider, r := UnmapPages(kernel, b.provider, b.physical);
    var client, q := UnmapPages(kernel, b.client, b.physical);
    b', clean := b.(client := client, provider := provider), r.Ok? && q.Ok?;
  }

  ghost function Extended(backing: map<nat, nat>, first: nat, count: nat, slot: nat): map<nat, nat> {
    map p | p in backing.Keys + Range(first, count) :: if p in backing then backing[p] else slot
  }

  lemma EntryAdded(e0: seq<Option<Buffer>>, backing: map<nat, nat>, m0: set<Mapped>, m1: set<Mapped>, i: nat, b: Buffer)
    requires AllTracked(e0, backing, m0) && i < |e0| && e0[i].None? && BufferSound(b)
    requires forall p :: InPages(b, p) ==> p !in backing
    requires forall m :: m in m0 ==> m in m1
    requires forall m :: m in m1 ==> m in m0 || Tracks(b, m)
    ensures AllTracked(e0[i := Some(b)], Extended(backing, b.physical, b.pages, i), m1)
    ensures forall j {:trigger ViewAt(e0[i := Some(b)], m1, j)} ::
              j != i ==> ViewAt(e0[i := Some(b)], m1, j) == ViewAt(e0, m0, j)
  {
    var e1, backing' := e0[i := Some(b)], Extended(backing, b.physical, b.pages, i);
    forall j | j != i ensures ViewAt(e1, m1, j) == ViewAt(e0, m0, j) && EntryAt(e1, backing', m1, j) {
      assert EntryAt(e0, backing, m0, j);
    }
    forall p ensures PageAt(e1, backing', p) {
      assert PageAt(e0, backing, p);
    }
    assert EntryAt(e1, backing', m1, i);
  }

  /** A creation was recorded at `i`. */
  ghost predicate CreatedAt(e0: seq<Option<Buffer>>, e1: seq<Option<Buffer>>, mapped: set<Mapped>, service: nat,
                            client: nat,
                            provider: nat, ok: bool, fatal: bool, i: int) {
    && 0 <= i < |e0| && e0[i].None? && |e1| == |e0| && e1[i].Some?
    && var b := e1[i].value;
       && b.service == service && b.client.owner == client && b.provider.owner == provider && b.candidate.None?
       && (ok ==> Open(b) && b.client.installed == b.pages && b.provider.installed == b.pages && ExactAt(e1, mapped, i))
       && (!ok ==> !Open(b))
       && (!ok && !fatal ==> b.client.installed == 0 && b.provider.installed == 0)
  }

  /** Closing at `i` took only client pages away, and only when no Provider had a view. */
  ghost predicate ClosedAt(e0: seq<Option<Buffer>>, e1: seq<Option<Buffer>>, r: Status, i: int) {
    && 0 <= i < |e0| && |e1| == |e0|
    && (r.Ok? && e0[i].Some? ==>
          e1[i] == Some(e0[i].value.(client := e0[i].value.client.(installed := 0), closed := true))
          && e0[i].value.provider.installed == 0 && e0[i].value.candidate.None?)
    && (e1[i] != e0[i] ==>
          && e0[i].Some? && e1[i].Some?
          && (r.Ok? || r == Err(Fatal))
          && e1[i].value == e0[i].value.(client := e0[i].value.client.(installed := e1[i].value.client.installed),
                                         closed := e1[i].value.closed))
  }

  /** Every page of the buffer was zeroed and was not allocated before. */
  ghost predicate NewlyZeroed(b: Buffer, zeroed: set<nat>, taken: set<nat>) {
    forall p :: InPages(b, p) ==> p in zeroed && p !in taken
  }

  /** The buffer records pages that the process may have mapped. */
  predicate RecordedFor(e: Option<Buffer>, owner: nat) {
    e.Some? &&
    (|| (e.value.client.owner == owner && e.value.client.installed != 0)
     || (e.value.provider.owner == owner && e.value.provider.installed != 0)
     || (e.value.candidate.Some? && e.value.candidate.value.owner == owner && e.value.candidate.value.installed != 0))
  }

  class Buffers {
    var entries: seq<Option<Buffer>>
    ghost var backing: map<nat, nat>

    ghost predicate Valid(kernel: Kernel)
      reads this, kernel
    {
      && |entries| == SESSIONS && AllTracked(entries, backing, kernel.mapped) && AllReserved(entries, kernel.reserved)
      && forall p :: p in backing ==> p in kernel.taken
    }

    constructor ()
      ensures |entries| == SESSIONS && (forall i :: 0 <= i < SESSIONS ==> entries[i].None?) && backing == map[]
      ensures AllTracked(entries, backing, {}) && AllReserved(entries, {})
    {
      entries, backing := seq(SESSIONS, _ => None), map[];
    }

    // ---- withdrawing ----

    method UnmapProvider(kernel: Kernel, i: nat) returns (r: Status)
      requires Valid(kernel) && i < SESSIONS && entries[i].Some? && Open(entries[i].value)
      modifies `entries, kernel`mapped, kernel`failures
      ensures Valid(kernel)
      ensures |entries| == |old(entries)|
      ensures ShrunkAt(old(entries), old(kernel.mapped), entries, kernel.mapped, old(entries)[i].value.service, i)
      ensures forall j {:trigger SameAt(old(entries), old(kernel.mapped), entries, kernel.mapped, j)} ::
                0 <= j < SESSIONS && j != i ==> SameAt(old(entries), old(kernel.mapped), entries, kernel.mapped, j)
      ensures r.Ok? ==>
                && WithdrawnAt(old(entries), old(kernel.mapped), entries, kernel.mapped, old(entries)[i].value.service,
                               old(entries)[i].value.provider.owner, i)
                && kernel.failures == old(kernel.failures)
      ensures r.Err? ==> kernel.failures > old(kernel.failures)
    {
      var b := entries[i].value;
      assert EntryAt(entries, backing, kernel.mapped, i);
      var provider;
      provider, r := UnmapPages(kernel, b.provider, b.physical);
      var b' := b.(provider := provider);
      forall m | m in PagesOf(kernel.mapped, b') ensures Tracks(b', m) {
        assert m in ViewAt(entries, old(kernel.mapped), i);
      }
      EntryReplaced(entries, backing, old(kernel.mapped), kernel.mapped, i, b');
      assert ReservedAt(entries, old(kernel.reserved), i);
      ReservedStill(entries, old(kernel.reserved), i, b', kernel.reserved);
      entries := entries[i := Some(b')];
    }

    /** Takes every open buffer of the service away from its Provider. Apart from a failed unmapping,
        the only error is a buffer that another Provider holds. */
    method Withdraw(kernel: Kernel, service: nat, owner: nat) returns (r: Status)
      requires Valid(kernel)
      modifies `entries, kernel`mapped, kernel`failures
      ensures Valid(kernel)
      ensures forall j {:trigger ShrunkAt(old(entries), old(kernel.mapped), entries, kernel.mapped, service, j)} ::
                0 <= j < SESSIONS ==> ShrunkAt(old(entries), old(kernel.mapped), entries, kernel.mapped, service, j)
      ensures r.Ok? ==>
                && kernel.failures == old(kernel.failures)
                && forall j ::
                     0 <= j < SESSIONS ==>
                       WithdrawnAt(old(entries), old(kernel.mapped), entries, kernel.mapped, service, owner, j)
      ensures r.Err? ==> r.error.Fatal?
      ensures r.Err? && (forall j :: 0 <= j < SESSIONS && Involved(old(entries)[j], service) ==>
                           old(entries)[j].value.provider.owner == owner)
              ==> kernel.failures > old(kernel.failures)
      ensures r.Ok? ==> kernel.failures == old(kernel.failures)
    {
      ghost var e0, m0 := entries, kernel.mapped;
      for i := 0 to SESSIONS
        invariant Valid(kernel) && kernel.failures == old(kernel.failures)
        invariant forall j {:trigger WithdrawnAt(e0, m0, entries, kernel.mapped, service, owner, j)} ::
                    0 <= j < i ==> WithdrawnAt(e0, m0, entries, kernel.mapped, service, owner, j)
        invariant forall j {:trigger SameAt(e0, m0, entries, kernel.mapped, j)} ::
                    i <= j < SESSIONS ==> SameAt(e0, m0, entries, kernel.mapped, j)
      {
        ghost var e1, m1 := entries, kernel.mapped;
        assert SameAt(e0, m0, entries, kernel.mapped, i);
        var status := Ok;
        if Involved(entries[i], service) {
          status := Err(Fatal);
          if entries[i].value.provider.owner == owner {
            status := UnmapProvider(kernel, i);
          }
        }
        forall j | 0 <= j < SESSIONS
          ensures ShrunkAt(e0, m0, entries, kernel.mapped, service, j)
          ensures status.Ok? && j <= i ==> WithdrawnAt(e0, m0, entries, kernel.mapped, service, owner, j)
          ensures status.Ok? && j > i ==> SameAt(e0, m0, entries, kernel.mapped, j)
        {
          assert j < i ==> WithdrawnAt(e0, m0, e1, m1, service, owner, j);
          assert j > i ==> SameAt(e0, m0, e1, m1, j);
          assert j != i ==> SameAt(e1, m1, entries, kernel.mapped, j);
        }
        if status.Err? {
          return Err(Fatal);
        }
      }
      forall j | 0 <= j < SESSIONS ensures ShrunkAt(e0, m0, entries, kernel.mapped, service, j) {
        assert WithdrawnAt(e0, m0, entries, kernel.mapped, service, owner, j);
      }
      return Ok;
    }

    // ---- installing ----

    /** Maps one open buffer for a new Provider, as its candidate view. */
    method Stage(kernel: Kernel, i: nat, owner: nat) returns (r: Status)
      requires Valid(kernel) && i < SESSIONS && entries[i].Some? && Open(entries[i].value)
      modifies `entries, kernel`mapped, kernel`reserved, kernel`failures
      ensures Valid(kernel) && kernel.failures >= old(kernel.failures)
      ensures CandidateAt(old(entries), old(kernel.mapped), entries, kernel.mapped, old(entries)[i].value.service,
                          owner, i)
      ensures forall j {:trigger SameAt(old(entries), old(kernel.mapped), entries, kernel.mapped, j)} ::
                0 <= j < SESSIONS && j != i ==> SameAt(old(entries), old(kernel.mapped), entries, kernel.mapped, j)
      ensures r.Ok? ==> StagedAt(old(entries), old(kernel.mapped), entries, kernel.mapped,
                                 old(entries)[i].value.service, owner, i)
      ensures r.Err? && Stageable(old(entries)[i], old(entries)[i].value.service, owner) ==>
                kernel.failures > old(kernel.failures)
      ensures r.Ok? ==> kernel.failures == old(kernel.failures)
    {
      var b := entries[i].value;
      assert EntryAt(entries, backing, kernel.mapped, i);
      if b.provider.installed != 0 || b.candidate.Some? {
        return Err(Fatal);
      }
      if b.client.owner == owner {
        return Err(PermissionDenied);
      }
      r := kernel.Attempt();
      if r.Err? {
        return;
      }
      var address := b.provider.address;
      if b.provider.owner != owner {
        var reserved := kernel.Reserve(owner, b.pages);
        if reserved.Error? {
          return Err(reserved.error);
        }
        address := reserved.value;
        MoreReserved(entries, old(kernel.reserved), kernel.reserved);
      }
      assert ReservedAt(entries, old(kernel.reserved), i);
      r := StageAt(kernel, i, Mapping(owner, address, 0));
    }

    method StageAt(kernel: Kernel, i: nat, mapping: Mapping) returns (r: Status)
      requires Valid(kernel) && i < SESSIONS && entries[i].Some? && Open(entries[i].value) && mapping.installed == 0
      requires var b := entries[i].value;
               b.provider.installed == 0 && b.candidate.None? && b.client.owner != mapping.owner
               && (b.provider.owner == mapping.owner ==> mapping.address == b.provider.address)
      requires Span(mapping.owner, mapping.address, entries[i].value.pages) in kernel.reserved
      modifies `entries, kernel`mapped, kernel`failures
      ensures Valid(kernel)
      ensures CandidateAt(old(entries), old(kernel.mapped), entries, kernel.mapped, old(entries)[i].value.service,
                          mapping.owner, i)
      ensures forall j {:trigger SameAt(old(entries), old(kernel.mapped), entries, kernel.mapped, j)} ::
                0 <= j < SESSIONS && j != i ==> SameAt(old(entries), old(kernel.mapped), entries, kernel.mapped, j)
      ensures r.Ok? ==>
                && StagedAt(old(entries), old(kernel.mapped), entries, kernel.mapped, old(entries)[i].value.service,
                            mapping.owner, i)
                && kernel.failures == old(kernel.failures)
      ensures r.Err? ==> kernel.failures > old(kernel.failures)
      ensures r.Ok? ==> kernel.failures == old(kernel.failures)
    {
      var b := entries[i].value;
      assert EntryAt(entries, backing, kernel.mapped, i);
      var candidate;
      candidate, r := MapPages(kernel, mapping, b.physical, b.pages);
      var b' := b.(candidate := Some(candidate));
      forall m | m in PagesOf(kernel.mapped, b')
        ensures Tracks(b', m) && (m in ViewAt(entries, old(kernel.mapped), i) || OnCandidate(b', m))
      {
        assert m in old(kernel.mapped) ==> m in ViewAt(entries, old(kernel.mapped), i);
      }
      EntryReplaced(entries, backing, old(kernel.mapped), kernel.mapped, i, b');
      assert ReservedAt(entries, old(kernel.reserved), i);
      ReservedStill(entries, old(kernel.reserved), i, b', kernel.reserved);
      entries := entries[i := Some(b')];
      assert ViewAt(entries, kernel.mapped, i) == PagesOf(kernel.mapped, b');
    }

    method StageAll(kernel: Kernel, service: nat, owner: nat) returns (r: Status)
      requires Valid(kernel)
      modifies `entries, kernel`mapped, kernel`reserved, kernel`failures
      ensures Valid(kernel) && kernel.failures >= old(kernel.failures)
      ensures forall j ::
                0 <= j < SESSIONS ==> CandidateAt(old(entries), old(kernel.mapped), entries, kernel.mapped, service,
                                                  owner, j)
      ensures r.Ok? ==>
                forall j ::
                  0 <= j < SESSIONS ==> StagedAt(old(entries), old(kernel.mapped), entries, kernel.mapped, service,
                                                 owner, j)
      ensures r.Err? && (forall j :: 0 <= j < SESSIONS ==> Stageable(old(entries)[j], service, owner))
              ==> kernel.failures > old(kernel.failures)
      ensures r.Ok? ==> kernel.failures == old(kernel.failures)
    {
      ghost var e0, m0 := entries, kernel.mapped;
      for i := 0 to SESSIONS
        invariant Valid(kernel) && kernel.failures == old(kernel.failures)
        invariant forall j {:trigger StagedAt(e0, m0, entries, kernel.mapped, service, owner, j)} ::
                    0 <= j < i ==> StagedAt(e0, m0, entries, kernel.mapped, service, owner, j)
        invariant forall j {:trigger SameAt(e0, m0, entries, kernel.mapped, j)} ::
                    i <= j < SESSIONS ==> SameAt(e0, m0, entries, kernel.mapped, j)
      {
        ghost var e1, m1 := entries, kernel.mapped;
        assert SameAt(e0, m0, entries, kernel.mapped, i);
        var status := Ok;
        if Involved(entries[i], service) {
          status := Stage(kernel, i, owner);
        }
        forall j | 0 <= j < SESSIONS
          ensures CandidateAt(e0, m0, entries, kernel.mapped, service, owner, j)
          ensures status.Ok? && j <= i ==> StagedAt(e0, m0, entries, kernel.mapped, service, owner, j)
          ensures status.Ok? && j > i ==> SameAt(e0, m0, entries, kernel.mapped, j)
        {
          assert j < i ==> StagedAt(e0, m0, e1, m1, service, owner, j);
          assert j > i ==> SameAt(e0, m0, e1, m1, j);
          assert j != i ==> SameAt(e1, m1, entries, kernel.mapped, j);
        }
        if status.Err? {
          return status;
        }
      }
      forall j | 0 <= j < SESSIONS ensures CandidateAt(e0, m0, entries, kernel.mapped, service, owner, j) {
        assert StagedAt(e0, m0, entries, kernel.mapped, service, owner, j);
      }
      return Ok;
    }

    /** Removes the candidate view of one buffer. */
    method Unstage(kernel: Kernel, i: nat) returns (r: Status)
      requires Valid(kernel) && i < SESSIONS && entries[i].Some? && entries[i].value.candidate.Some?
      modifies `entries, kernel`mapped, kernel`failures
      ensures Valid(kernel) && kernel.failures >= old(kernel.failures)
      ensures RolledBackAt(old(entries), old(kernel.mapped), entries, kernel.mapped, old(entries)[i].value.service, i)
      ensures forall j {:trigger SameAt(old(entries), old(kernel.mapped), entries, kernel.mapped, j)} ::
                0 <= j < SESSIONS && j != i ==> SameAt(old(entries), old(kernel.mapped), entries, kernel.mapped, j)
      ensures r.Ok? ==> !HasCandidate(entries[i], old(entries)[i].value.service)
    {
      var b := entries[i].value;
      assert EntryAt(entries, backing, kernel.mapped, i);
      var candidate;
      candidate, r := UnmapPages(kernel, b.candidate.value, b.physical);
      var b' := b.(candidate := if r.Ok? then None else Some(candidate));
      forall m | m in PagesOf(kernel.mapped, b') ensures Tracks(b', m) && m in ViewAt(entries, old(kernel.mapped), i) {
        assert m in ViewAt(entries, old(kernel.mapped), i);
      }
      EntryReplaced(entries, backing, old(kernel.mapped), kernel.mapped, i, b');
      assert ReservedAt(entries, old(kernel.reserved), i);
      ReservedStill(entries, old(kernel.reserved), i, b', kernel.reserved);
      entries := entries[i := Some(b')];
      assert ViewAt(entries, kernel.mapped, i) == PagesOf(kernel.mapped, b');
    }

    /** Removes every candidate view of the service, going on past failures. */
    method RollBack(kernel: Kernel, service: nat) returns (clean: bool)
      requires Valid(kernel)
      modifies `entries, kernel`mapped, kernel`failures
      ensures Valid(kernel) && kernel.failures >= old(kernel.failures)
      ensures forall j {:trigger RolledBackAt(old(entries), old(kernel.mapped), entries, kernel.mapped, service, j)} ::
                0 <= j < SESSIONS ==> RolledBackAt(old(entries), old(kernel.mapped), entries, kernel.mapped, service, j)
      ensures clean ==> forall j :: 0 <= j < SESSIONS ==> !HasCandidate(entries[j], service)
    {
      ghost var e0, m0 := entries, kernel.mapped;
      clean := true;
      for i := 0 to SESSIONS
        invariant Valid(kernel) && kernel.failures >= old(kernel.failures)
        invariant forall j {:trigger RolledBackAt(e0, m0, entries, kernel.mapped, service, j)} ::
                    0 <= j < i ==> RolledBackAt(e0, m0, entries, kernel.mapped, service, j)
        invariant forall j {:trigger SameAt(e0, m0, entries, kernel.mapped, j)} ::
                    i <= j < SESSIONS ==> SameAt(e0, m0, entries, kernel.mapped, j)
        invariant clean ==> forall j :: 0 <= j < i ==> !HasCandidate(entries[j], service)
      {
        ghost var e1, m1 := entries, kernel.mapped;
        assert SameAt(e0, m0, entries, kernel.mapped, i);
        if HasCandidate(entries[i], service) {
          var status := Unstage(kernel, i);
          if status.Err? {
            clean := false;
          }
        }
        forall j | 0 <= j < SESSIONS
          ensures j <= i ==> RolledBackAt(e0, m0, entries, kernel.mapped, service, j)
          ensures j > i ==> SameAt(e0, m0, entries, kernel.mapped, j)
          ensures clean && j <= i ==> !HasCandidate(entries[j], service)
        {
          assert j < i ==> RolledBackAt(e0, m0, e1, m1, service, j);
          assert j > i ==> SameAt(e0, m0, e1, m1, j);
          assert j != i ==> SameAt(e1, m1, entries, kernel.mapped, j);
        }
      }
    }

    /** Makes the candidate views of the service the Provider's views. */
    method Adopt(kernel: Kernel, service: nat)
      requires Valid(kernel)
      modifies `entries
      ensures Valid(kernel)
      ensures forall j :: 0 <= j < SESSIONS ==> entries[j] == Adopted(old(entries)[j], service)
    {
      ghost var e0 := entries;
      for i := 0 to SESSIONS
        invariant Valid(kernel)
        invariant forall j :: 0 <= j < SESSIONS ==> entries[j] == if j < i then Adopted(e0[j], service) else e0[j]
      {
        if HasCandidate(entries[i], service) {
          var b := entries[i].value;
          var b' := b.(provider := b.candidate.value, candidate := None);
          assert EntryAt(entries, backing, kernel.mapped, i);
          forall m | m in PagesOf(kernel.mapped, b') ensures Tracks(b', m) {
            assert m in ViewAt(entries, kernel.mapped, i);
          }
          EntryReplaced(entries, backing, kernel.mapped, kernel.mapped, i, b');
          assert ReservedAt(entries, kernel.reserved, i);
          ReservedStill(entries, kernel.reserved, i, b', kernel.reserved);
          entries := entries[i := Some(b')];
        }
      }
    }

    /** Maps every open buffer of the service for `owner` and then grants it the receiver. A failure
        that is not Fatal leaves the buffers, the mappings and the receivers as they were. */
    method Install(kernel: Kernel, service: nat, owner: nat) returns (r: Status)
      requires Valid(kernel)
      modifies `entries, kernel`mapped, kernel`reserved, kernel`failures, kernel`receivers
      ensures Valid(kernel) && kernel.failures >= old(kernel.failures)
      ensures r.Ok? ==>
                && kernel.receivers == old(kernel.receivers) + {Holding(service, owner)}
                && forall j ::
                     0 <= j < SESSIONS ==>
                       InstalledAt(old(entries), old(kernel.mapped), entries, kernel.mapped, service, owner, j)
      ensures r.Err? && !r.error.Fatal? ==>
                (forall j :: 0 <= j < SESSIONS ==> !HasCandidate(old(entries)[j], service)) ==>
                  && entries == old(entries) && kernel.mapped == old(kernel.mapped)
                  && kernel.receivers == old(kernel.receivers)
      ensures r.Err? ==>
                && (kernel.receivers == old(kernel.receivers)
                    || kernel.receivers == old(kernel.receivers) + {Holding(service, owner)})
                && forall j ::
                     0 <= j < SESSIONS ==>
                       DisturbedAt(old(entries), old(kernel.mapped), entries, kernel.mapped, service, owner, j)
      ensures r.Err? && (forall j :: 0 <= j < SESSIONS ==> Stageable(old(entries)[j], service, owner))
              ==> kernel.failures > old(kernel.failures)
      ensures r.Ok? ==> kernel.failures == old(kernel.failures)
    {
      ghost var e0, m0 := entries, kernel.mapped;
      r := StageAll(kernel, service, owner);
      ghost var e1, m1 := entries, kernel.mapped;
      if r.Ok? {
        r := kernel.Grant(service, owner);
      }
      if r.Err? {
        var clean := RollBack(kernel, service);
        forall j | 0 <= j < SESSIONS
          ensures DisturbedAt(e0, m0, entries, kernel.mapped, service, owner, j)
          ensures clean && !HasCandidate(e0[j], service) ==> SameAt(e0, m0, entries, kernel.mapped, j)
        {
          assert CandidateAt(e0, m0, e1, m1, service, owner, j);
          assert RolledBackAt(e1, m1, entries, kernel.mapped, service, j);
          Restored(e0, backing, m0, e1, m1, entries, kernel.mapped, service, owner, j);
        }
        if clean && forall j :: 0 <= j < SESSIONS ==> !HasCandidate(e0[j], service) {
          AllSame(e0, backing, m0, entries, kernel.mapped);
        }
        return if clean then r else Err(Fatal);
      }
      Adopt(kernel, service);
      forall j | 0 <= j < SESSIONS ensures InstalledAt(e0, m0, entries, kernel.mapped, service, owner, j) {
        assert StagedAt(e0, m0, e1, m1, service, owner, j);
        StagedAdopted(e0, backing, m0, e1, m1, entries, service, owner, j);
      }
    }

    // ---- creating and closing ----

    /** The session may have such a buffer, or has it already. */
    predicate CanCreate(id: nat, service: nat, client: nat, provider: nat, pages: nat)
      reads this
    {
      && SessionIndex(id).Some? && SessionIndex(id).value < |entries|
      && client != 0 && provider != 0 && client != provider && 1 <= pages <= 16
      && var e := entries[SessionIndex(id).value];
         e.Some? ==>
           e.value.service == service && e.value.client.owner == client && e.value.pages == pages && Open(e.value)
    }

    /** Attaches a buffer of fresh pages to a session. A failed creation is recorded too, and unless the
        failure is Fatal none of its pages stays mapped. */
    method Create(kernel: Kernel, id: nat, service: nat, client: nat, provider: nat, pages: nat)
      returns (r: Outcome<View>)
      requires Valid(kernel)
      modifies `entries, `backing, kernel`mapped, kernel`zeroed, kernel`reserved, kernel`failures, kernel`taken
      ensures Valid(kernel) && kernel.failures >= old(kernel.failures)
      ensures r.Value? ==> old(CanCreate(id, service, client, provider, pages))
      ensures old(CanCreate(id, service, client, provider, pages)) ==>
                r.Value? || kernel.failures > old(kernel.failures)
      ensures r.Value? ==> SessionIndex(id).Some? && client != provider
      ensures r.Value? ==>
                var e := entries[SessionIndex(id).value];
                && Involved(e, service) && e.value.client.owner == client && e.value.pages == pages
                && r.value == View(e.value.client.address, pages * PAGE)
      ensures r.Value? && entries != old(entries) ==>
                NewlyZeroed(entries[SessionIndex(id).value].value, kernel.zeroed, old(kernel.taken))
      ensures entries != old(entries) ==> SessionIndex(id).Some? && old(entries)[SessionIndex(id).value].None?
      ensures entries == old(entries) ==> kernel.mapped == old(kernel.mapped)
      ensures entries != old(entries) ==>
                CreatedAt(old(entries), entries, kernel.mapped, service, client, provider, r.Value?, r == Error(Fatal),
                          SessionIndex(id).value)
      ensures forall j {:trigger SameAt(old(entries), old(kernel.mapped), entries, kernel.mapped, j)} ::
                0 <= j < SESSIONS && (entries == old(entries) || j != SessionIndex(id).value) ==>
                  SameAt(old(entries), old(kernel.mapped), entries, kernel.mapped, j)
      ensures r.Value? ==> kernel.failures == old(kernel.failures)
    {
      var slot := SessionIndex(id);
      if slot.None? {
        return Error(InvalidArgument);
      }
      if client == 0 || provider == 0 || client == provider || !(1 <= pages <= 16) {
        return Error(InvalidArgument);
      }
      if entries[slot.value].Some? {
        var b := entries[slot.value].value;
        if b.service != service || b.client.owner != client || b.pages != pages {
          return Error(PermissionDenied);
        }
        if Open(b) {
          return Value(View(b.client.address, pages * PAGE));
        }
        return Error(Fatal);
      }
      var allowed := kernel.Attempt();
      if allowed.Err? {
        return Error(allowed.error);
      }
      ghost var taken := kernel.taken;
      var physical := kernel.Allocate(pages);
      if physical.Error? {
        return Error(physical.error);
      }
      var b := Buffer(service, physical.value, pages, Mapping(client, 0, 0), Mapping(provider, 0, 0), None, false,
                      false);
      r := Fill(kernel, slot.value, b, taken);
    }

    method Fill(kernel: Kernel, slot: nat, b: Buffer, ghost taken: set<nat>) returns (r: Outcome<View>)
      requires Valid(kernel) && slot < SESSIONS && entries[slot].None?
      requires b.client.installed == 0 && b.provider.installed == 0 && b.candidate.None? && !b.closed && !b.ready
      requires b.client.owner != b.provider.owner
      requires forall p :: InPages(b, p) ==> p !in backing && p in kernel.taken && p !in taken
      modifies `entries, `backing, kernel`mapped, kernel`zeroed, kernel`reserved, kernel`failures
      ensures Valid(kernel) && kernel.failures >= old(kernel.failures)
      ensures (r.Error? ==> kernel.failures > old(kernel.failures))
      ensures entries[slot].Some? && entries[slot].value.pages == b.pages
      ensures r.Value? ==> NewlyZeroed(entries[slot].value, kernel.zeroed, taken)
      ensures CreatedAt(old(entries), entries, kernel.mapped, b.service, b.client.owner, b.provider.owner, r.Value?,
                        r == Error(Fatal), slot)
      ensures r.Value? ==> r.value == View(entries[slot].value.client.address, entries[slot].value.pages * PAGE)
      ensures forall j {:trigger SameAt(old(entries), old(kernel.mapped), entries, kernel.mapped, j)} ::
                0 <= j < SESSIONS && j != slot ==> SameAt(old(entries), old(kernel.mapped), entries, kernel.mapped, j)
      ensures r.Value? ==> kernel.failures == old(kernel.failures)
    {
      ghost var m0 := kernel.mapped;
      var b1, status := Populate(kernel, b);
      forall m | m in m0 ensures !Tracks(b1, m) {}
      if status.Err? {
        var b2, clean := Clear(kernel, b1);
        b2 := b2.(closed := true);
        EntryAdded(entries, backing, m0, kernel.mapped, slot, b2);
        ReservedStill(entries, old(kernel.reserved), slot, b2, kernel.reserved);
        entries, backing := entries[slot := Some(b2)], Extended(backing, b2.physical, b2.pages, slot);
        return Error(if clean then status.error else Fatal);
      }
      ghost var was := b1;
      b1 := b1.(ready := true);
      assert NewlyZeroed(b1, kernel.zeroed, taken) by {
        assert forall p :: InPages(b1, p) ==> InPages(b, p);
      }
      EntryAdded(entries, backing, m0, kernel.mapped, slot, b1);
      ReservedStill(entries, old(kernel.reserved), slot, b1, kernel.reserved);
      forall m | Tracks(b1, m) ensures m in PagesOf(kernel.mapped, b1) {
        assert Tracks(was, m);
      }
      entries, backing := entries[slot := Some(b1)], Extended(backing, b1.physical, b1.pages, slot);
      return Value(View(b1.client.address, b1.pages * PAGE));
    }

    /** Unmaps a buffer from its client, once no Provider holds it. */
    method Close(kernel: Kernel, id: nat) returns (r: Status)
      requires Valid(kernel)
      modifies `entries, kernel`mapped, kernel`failures
      ensures Valid(kernel) && kernel.failures >= old(kernel.failures)
      ensures SessionIndex(id).Some? ==> ClosedAt(old(entries), entries, r, SessionIndex(id).value)
      ensures (r.Err? && !r.error.Fatal?) || (SessionIndex(id).Some? && old(entries)[SessionIndex(id).value].None?) ==>
                entries == old(entries) && kernel.mapped == old(kernel.mapped)
      ensures r.Err? ==>
                || SessionIndex(id).None? || kernel.failures > old(kernel.failures)
                || (var e := old(entries)[SessionIndex(id).value];
                    e.Some? && (e.value.provider.installed != 0 || e.value.candidate.Some?))
      ensures forall j {:trigger SameAt(old(entries), old(kernel.mapped), entries, kernel.mapped, j)} ::
                0 <= j < SESSIONS && Some(j) != SessionIndex(id) ==>
                  SameAt(old(entries), old(kernel.mapped), entries, kernel.mapped, j)
      ensures r.Ok? ==> kernel.failures == old(kernel.failures)
    {
      var slot := SessionIndex(id);
      if slot.None? {
        return Err(InvalidArgument);
      }
      if entries[slot.value].None? {
        return Ok;
      }
      var i, b := slot.value, entries[slot.value].value;
      if b.provider.installed != 0 || b.candidate.Some? {
        return Err(IllegalOperation);
      }
      assert EntryAt(entries, backing, kernel.mapped, i);
      var client, status := UnmapPages(kernel, b.client, b.physical);
      var b' := b.(client := client, closed := b.closed || status.Ok?);
      forall m | m in PagesOf(kernel.mapped, b') ensures Tracks(b', m) {
        assert m in ViewAt(entries, old(kernel.mapped), i);
      }
      EntryReplaced(entries, backing, old(kernel.mapped), kernel.mapped, i, b');
      assert ReservedAt(entries, old(kernel.reserved), i);
      ReservedStill(entries, old(kernel.reserved), i, b', kernel.reserved);
      entries := entries[i := Some(b')];
      return if status.Ok? then Ok else Err(Fatal);
    }

    // ---- queries ----

    /** Where a Provider sees a buffer: every page of the view is mapped there, if the record is exact. */
    method ViewFor(kernel: Kernel, id: nat, provider: nat) returns (r: Outcome<View>)
      requires Valid(kernel)
      ensures r.Value? <==>
                && SessionIndex(id).Some? && entries[SessionIndex(id).value].Some?
                && var b := entries[SessionIndex(id).value].value;
                   Open(b) && b.provider.owner == provider && b.provider.installed == b.pages
      ensures r.Value? ==>
                var b := entries[SessionIndex(id).value].value;
                && Open(b) && b.provider.owner == provider && r.value == View(b.provider.address, b.pages * PAGE)
                && (ExactAt(entries, kernel.mapped, SessionIndex(id).value) ==>
                      forall k :: 0 <= k < b.pages ==>
                        Mapped(provider, r.value.address + k * PAGE, b.physical + k) in kernel.mapped)
    {
      var slot := SessionIndex(id);
      if slot.None? || entries[slot.value].None? {
        return Error(InvalidArgument);
      }
      var b := entries[slot.value].value;
      if !Open(b) || b.provider.owner != provider || b.provider.installed != b.pages {
        return Error(PermissionDenied);
      }
      forall k | 0 <= k < b.pages
        ensures Tracks(b, Mapped(provider, b.provider.address + k * PAGE, b.physical + k))
      {
      }
      return Value(View(b.provider.address, b.pages * PAGE));
    }

    /** A process without a recorded mapping has none: its address space can be reaped. */
    method HasMapping(kernel: Kernel, owner: nat) returns (r: bool)
      requires Valid(kernel)
      ensures r <==> exists j :: 0 <= j < SESSIONS && RecordedFor(entries[j], owner)
      ensures !r ==> forall m :: m in kernel.mapped ==> m.owner != owner
    {
      for i := 0 to SESSIONS
        invariant forall j, m :: 0 <= j < i && m in ViewAt(entries, kernel.mapped, j) ==> m.owner != owner
        invariant forall j :: 0 <= j < i ==> !RecordedFor(entries[j], owner)
      {
        if RecordedFor(entries[i], owner) {
          return true;
        }
        if entries[i].Some? {
          assert EntryAt(entries, backing, kernel.mapped, i);
        }
      }
      forall m | m in kernel.mapped ensures m.owner != owner {
        assert PageAt(entries, backing, m.page);
        assert m in ViewAt(entries, kernel.mapped, backing[m.page]);
      }
      return false;
    }
  }
}
