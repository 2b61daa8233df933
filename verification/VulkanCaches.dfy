/** The two import caches of the RGB to NV12 converter, and the descriptor binding that a
    generation number keeps up to date. */
module VulkanCaches {
  import opened Integers
  import opened Recency
  import opened VulkanDevice
  import Nv12

  const SOURCE_CAPACITY: nat := 8
  const DESTINATION_CAPACITY: nat := 10

  datatype Status = OK | Omitted | BadValue | Corrupted

  /** Everything about a buffer that an import depends on, except its descriptor. */
  datatype Layout = Layout(stride: uint32, offset: uint32, size: uint32)

  datatype Signature = Signature(width: uint32, height: uint32, drmFormat: uint32,
                                 modifier: uint64, totalSize: uint64, layouts: seq<Layout>)

  function LayoutOf(p: Nv12.Plane): Layout {
    Layout(p.stride, p.offset, p.size)
  }

  function SignatureOf(b: Nv12.DmaBuf): Signature {
    Signature(b.width, b.height, b.drmFormat, b.modifier, b.totalSize,
              seq(|b.planes|, k requires 0 <= k < |b.planes| => LayoutOf(b.planes[k])))
  }

  /** Any buffer of this signature can be bound as two texel buffers. */
  predicate Bindable(s: Signature, limits: Nv12.Limits)
    requires limits.Valid()
  {
    && |s.layouts| == 2
    && Nv12.Addressable(Nv12.DmaBuf(s.width, s.height, s.drmFormat, s.modifier, s.totalSize, 0,
                                    [PlaneOf(s.layouts[0]), PlaneOf(s.layouts[1])]), limits)
  }

  function PlaneOf(l: Layout): Nv12.Plane {
    Nv12.Plane(0, l.stride, l.offset, l.size)
  }

  /** What an import checks depends on the signature alone, so a hit need not check it again. */
  lemma BindableBySignature(b: Nv12.DmaBuf, limits: Nv12.Limits)
    requires limits.Valid() && |b.planes| == 2
    ensures Bindable(SignatureOf(b), limits) == Nv12.Addressable(b, limits)
  {
    var s := SignatureOf(b);
    assert s.layouts[0] == LayoutOf(b.planes[0]) && s.layouts[1] == LayoutOf(b.planes[1]);
  }

  /** A null handle owns nothing. */
  function Owning(kind: Kind, value: nat): set<Handle> {
    if value != 0 then {Handle(kind, value)} else {}
  }

  datatype Source = Source(signature: Signature, image: nat, memory: nat, view: nat, lastUsed: nat, generation: nat) {
    /** The live objects of an entry. */
    function Handles(): set<Handle> {
      Owning(Image, image) + Owning(ImageMemory, memory) + Owning(ImageView, view)
    }
  }

  datatype Destination = Destination(signature: Signature, buffer: nat, memory: nat, lumaView: nat, chromaView: nat,
                                     descriptorSet: nat, sourceGeneration: nat, lastUsed: nat) {
    function Handles(): set<Handle> {
      Owning(Buffer, buffer) + Owning(BufferMemory, memory) + Owning(LumaView, lumaView)
      + Owning(ChromaView, chromaView) + Owning(DescriptorSet, descriptorSet)
    }
  }

  datatype Owner = OfSource(id: Id) | OfDestination(id: Id)

  // ----- who owns what -----

  /** Every live object has exactly one owner, a cached entry; every entry is complete. */
  ghost predicate Owned(live: set<Handle>, owner: map<Handle, Owner>, sources: map<Id, Source>,
                        destinations: map<Id, Destination>) {
    && (forall h :: h in live <==> h in owner)
    && (forall h :: h in owner ==> HeldBy(h, owner[h], sources, destinations))
    && (forall id :: id in sources ==> SourceOwned(owner, id, sources[id]))
    && (forall id :: id in destinations ==> DestinationOwned(owner, id, destinations[id]))
  }

  ghost predicate HeldBy(h: Handle, o: Owner, sources: map<Id, Source>, destinations: map<Id, Destination>) {
    if o.OfSource? then o.id in sources && h in sources[o.id].Handles()
    else o.id in destinations && h in destinations[o.id].Handles()
  }

  ghost predicate SourceOwned(owner: map<Handle, Owner>, id: Id, s: Source) {
    && s.image != 0 && s.memory != 0 && s.view != 0
    && forall h :: h in s.Handles() ==> h in owner && owner[h] == OfSource(id)
  }

  ghost predicate DestinationOwned(owner: map<Handle, Owner>, id: Id, d: Destination) {
    && d.buffer != 0 && d.memory != 0 && d.lumaView != 0 && d.chromaView != 0 && d.descriptorSet != 0
    && forall h :: h in d.Handles() ==> h in owner && owner[h] == OfDestination(id)
  }

  // ----- generations and bindings -----

  /** Generations are never reused while the counter runs. */
  ghost predicate Generations(sources: map<Id, Source>, destinations: map<Id, Destination>, counter: nat) {
    && (forall id :: id in sources ==> 0 < sources[id].generation <= counter)
    && (forall a, b :: a in sources && b in sources && a != b ==> sources[a].generation != sources[b].generation)
    && (forall id :: id in destinations ==> destinations[id].sourceGeneration <= counter)
  }

  /** A destination that remembers a cached source's generation is bound to that source's view,
      to the object itself and not merely to its handle value. */
  ghost predicate Fresh(sources: map<Id, Source>, destinations: map<Id, Destination>, bound: map<nat, nat>,
                        born: map<Handle, nat>) {
    forall d, s :: d in destinations && s in sources && destinations[d].sourceGeneration == sources[s].generation ==>
      BoundTo(destinations[d], sources[s], bound, born)
  }

  ghost predicate BoundTo(d: Destination, s: Source, bound: map<nat, nat>, born: map<Handle, nat>) {
    && d.descriptorSet in bound && Handle(ImageView, s.view) in born
    && bound[d.descriptorSet] == born[Handle(ImageView, s.view)]
  }

  ghost predicate Born(live: set<Handle>, born: map<Handle, nat>) {
    forall h :: h in live ==> h in born
  }

  function SourceUse(sources: map<Id, Source>): map<Id, nat> {
    map id | id in sources :: sources[id].lastUsed
  }

  function DestinationUse(destinations: map<Id, Destination>): map<Id, nat> {
    map id | id in destinations :: destinations[id].lastUsed
  }

  /** The state of both caches. */
  ghost predicate Caches(live: set<Handle>, born: map<Handle, nat>, bound: map<nat, nat>, owner: map<Handle, Owner>,
                         sources: map<Id, Source>, destinations: map<Id, Destination>, counter: nat) {
    && Owned(live, owner, sources, destinations) && Born(live, born)
    && Generations(sources, destinations, counter) && Fresh(sources, destinations, bound, born)
  }

  /** The use counters agree with a recency list of bounded length. */
  ghost predicate Lru(used: map<Id, nat>, recency: seq<Id>, counter: nat, capacity: nat) {
    Agrees(used, recency, counter) && |recency| <= capacity
  }

  // ----- how each cache step changes the state -----

  /** Entries that differ only in their use counters. */
  lemma SameGenerations(sources: map<Id, Source>, sources': map<Id, Source>, destinations: map<Id, Destination>,
                        destinations': map<Id, Destination>, bound: map<nat, nat>, born: map<Handle, nat>, counter: nat)
    requires Generations(sources, destinations, counter) && Fresh(sources, destinations, bound, born)
    requires sources'.Keys == sources.Keys && destinations'.Keys == destinations.Keys
    requires forall id :: id in sources ==>
      sources'[id].generation == sources[id].generation && sources'[id].view == sources[id].view
    requires forall id :: id in destinations ==>
      && destinations'[id].sourceGeneration == destinations[id].sourceGeneration
      && destinations'[id].descriptorSet == destinations[id].descriptorSet
    ensures Generations(sources', destinations', counter + 1) && Fresh(sources', destinations', bound, born)
  {
    forall d, s | d in destinations' && s in sources' && destinations'[d].sourceGeneration == sources'[s].generation
      ensures BoundTo(destinations'[d], sources'[s], bound, born)
    {
      assert BoundTo(destinations[d], sources[s], bound, born);
    }
  }

  lemma SourceKeepsHandles(s: Source, s': Source)
    requires s' == s.(lastUsed := s'.lastUsed)
    ensures s'.Handles() == s.Handles()
  {
  }

  lemma DestinationKeepsHandles(d: Destination, d': Destination)
    requires d' == d.(lastUsed := d'.lastUsed, sourceGeneration := d'.sourceGeneration)
    ensures d'.Handles() == d.Handles()
  {
  }

  lemma UseSourceOwned(live: set<Handle>, owner: map<Handle, Owner>, sources: map<Id, Source>,
                  destinations: map<Id, Destination>, counter: nat, id: Id)
    requires Owned(live, owner, sources, destinations) && id in sources
    ensures Owned(live, owner, sources[id := sources[id].(lastUsed := counter)], destinations)
  {
    hide Source.Handles, Destination.Handles;
    SourceKeepsHandles(sources[id], sources[id].(lastUsed := counter));
  }

  lemma UseSource(live: set<Handle>, born: map<Handle, nat>, bound: map<nat, nat>, owner: map<Handle, Owner>,
                  sources: map<Id, Source>, destinations: map<Id, Destination>, counter: nat, id: Id)
    requires Caches(live, born, bound, owner, sources, destinations, counter) && id in sources
    ensures Caches(live, born, bound, owner, sources[id := sources[id].(lastUsed := counter + 1)], destinations, counter + 1)
  {
    hide Owned, Source.Handles, Destination.Handles, Born, Fresh, Generations;
    UseSourceOwned(live, owner, sources, destinations, counter + 1, id);
    var used := sources[id := sources[id].(lastUsed := counter + 1)];
    SameGenerations(sources, used, destinations, destinations, bound, born, counter);
  }

  /** A destination that is used or rebound keeps its handles. */
  lemma TouchDestinationOwned(live: set<Handle>, owner: map<Handle, Owner>, sources: map<Id, Source>,
                              destinations: map<Id, Destination>, id: Id, d: Destination)
    requires Owned(live, owner, sources, destinations) && id in destinations
    requires d == destinations[id].(lastUsed := d.lastUsed, sourceGeneration := d.sourceGeneration)
    ensures Owned(live, owner, sources, destinations[id := d])
  {
    hide Source.Handles, Destination.Handles;
    DestinationKeepsHandles(destinations[id], d);
  }

  lemma UseDestination(live: set<Handle>, born: map<Handle, nat>, bound: map<nat, nat>, owner: map<Handle, Owner>,
                       sources: map<Id, Source>, destinations: map<Id, Destination>, counter: nat, id: Id)
    requires Caches(live, born, bound, owner, sources, destinations, counter) && id in destinations
    ensures Caches(live, born, bound, owner, sources,
                   destinations[id := destinations[id].(lastUsed := counter + 1)], counter + 1)
  {
    hide Owned, Source.Handles, Destination.Handles, Born, Fresh, Generations;
    TouchDestinationOwned(live, owner, sources, destinations, id, destinations[id].(lastUsed := counter + 1));
    var used := destinations[id := destinations[id].(lastUsed := counter + 1)];
    SameGenerations(sources, sources, destinations, used, bound, born, counter);
  }

  function Disown(owner: map<Handle, Owner>, handles: set<Handle>): map<Handle, Owner> {
    owner - handles
  }

  lemma DropSourceOwned(live: set<Handle>, owner: map<Handle, Owner>, sources: map<Id, Source>,
                         destinations: map<Id, Destination>, id: Id)
    requires Owned(live, owner, sources, destinations) && id in sources
    ensures var gone := sources[id].Handles();
      gone <= live && Owned(live - gone, Disown(owner, gone), sources - {id}, destinations)
  {
    hide Source.Handles, Destination.Handles;
  }

  lemma DropSource(live: set<Handle>, born: map<Handle, nat>, bound: map<nat, nat>, owner: map<Handle, Owner>,
                   sources: map<Id, Source>, destinations: map<Id, Destination>, counter: nat, id: Id)
    requires Caches(live, born, bound, owner, sources, destinations, counter) && id in sources
    ensures var gone := sources[id].Handles();
      gone <= live && Caches(live - gone, born, bound, Disown(owner, gone), sources - {id}, destinations, counter)
  {
    hide Source.Handles, Destination.Handles;
    DropSourceOwned(live, owner, sources, destinations, id);
    hide Owned;
  }

  lemma DropDestinationOwned(live: set<Handle>, owner: map<Handle, Owner>, sources: map<Id, Source>,
                         destinations: map<Id, Destination>, id: Id)
    requires Owned(live, owner, sources, destinations) && id in destinations
    ensures var gone := destinations[id].Handles();
      gone <= live && Owned(live - gone, Disown(owner, gone), sources, destinations - {id})
  {
    hide Source.Handles, Destination.Handles;
  }

  lemma DropDestination(live: set<Handle>, born: map<Handle, nat>, bound: map<nat, nat>, owner: map<Handle, Owner>,
                        sources: map<Id, Source>, destinations: map<Id, Destination>, counter: nat, id: Id)
    requires Caches(live, born, bound, owner, sources, destinations, counter) && id in destinations
    ensures var gone := destinations[id].Handles();
      gone <= live && Caches(live - gone, born, bound, Disown(owner, gone), sources, destinations - {id}, counter)
  {
    hide Source.Handles, Destination.Handles;
    DropDestinationOwned(live, owner, sources, destinations, id);
    hide Owned;
  }

  /** Objects that died or were created in between do not matter to the caches. */
  ghost predicate SameBirths(live: set<Handle>, before: map<Handle, nat>, after: map<Handle, nat>) {
    forall h :: h in live && h in before ==> h in after && after[h] == before[h]
  }

  lemma ViewHandle(s: Source)
    ensures s.view != 0 ==> Handle(ImageView, s.view) in s.Handles()
  {
  }

  lemma SetHandle(d: Destination)
    ensures d.descriptorSet != 0 ==> Handle(DescriptorSet, d.descriptorSet) in d.Handles()
  {
  }

  lemma CachedViewLive(live: set<Handle>, owner: map<Handle, Owner>, sources: map<Id, Source>,
                       destinations: map<Id, Destination>, id: Id)
    requires Owned(live, owner, sources, destinations) && id in sources
    ensures Handle(ImageView, sources[id].view) in live
  {
    ViewHandle(sources[id]);
  }

  lemma CachedSetLive(live: set<Handle>, owner: map<Handle, Owner>, sources: map<Id, Source>,
                      destinations: map<Id, Destination>, id: Id)
    requires Owned(live, owner, sources, destinations) && id in destinations
    ensures var h := Handle(DescriptorSet, destinations[id].descriptorSet);
      h in live && h in owner && owner[h] == OfDestination(id)
  {
    SetHandle(destinations[id]);
  }

  lemma FreshAcross(live: set<Handle>, before: map<Handle, nat>, after: map<Handle, nat>, bound: map<nat, nat>,
                    owner: map<Handle, Owner>, sources: map<Id, Source>, destinations: map<Id, Destination>)
    requires Owned(live, owner, sources, destinations) && Fresh(sources, destinations, bound, before)
    requires SameBirths(live, before, after)
    ensures Fresh(sources, destinations, bound, after)
  {
    hide Owned, Source.Handles, Destination.Handles;
    forall d, s | d in destinations && s in sources && destinations[d].sourceGeneration == sources[s].generation
      ensures BoundTo(destinations[d], sources[s], bound, after)
    {
      CachedViewLive(live, owner, sources, destinations, s);
    }
  }

  function Adopt(owner: map<Handle, Owner>, handles: set<Handle>, o: Owner): map<Handle, Owner> {
    owner + map h | h in handles :: o
  }

  lemma AddSourceOwned(live: set<Handle>, owner: map<Handle, Owner>, sources: map<Id, Source>,
                       destinations: map<Id, Destination>, id: Id, s: Source)
    requires Owned(live, owner, sources, destinations) && id !in sources
    requires s.image != 0 && s.memory != 0 && s.view != 0 && s.Handles() !! live
    ensures Owned(live + s.Handles(), Adopt(owner, s.Handles(), OfSource(id)), sources[id := s], destinations)
  {
    hide Source.Handles, Destination.Handles;
  }

  lemma AddDestinationOwned(live: set<Handle>, owner: map<Handle, Owner>, sources: map<Id, Source>,
                            destinations: map<Id, Destination>, id: Id, d: Destination)
    requires Owned(live, owner, sources, destinations) && id !in destinations
    requires d.buffer != 0 && d.memory != 0 && d.lumaView != 0 && d.chromaView != 0 && d.descriptorSet != 0
    requires d.Handles() !! live
    ensures Owned(live + d.Handles(), Adopt(owner, d.Handles(), OfDestination(id)), sources, destinations[id := d])
  {
    hide Source.Handles, Destination.Handles;
  }

  /** A new source gets a generation that no destination can remember. */
  lemma AddSource(live: set<Handle>, before: map<Handle, nat>, after: map<Handle, nat>, bound: map<nat, nat>,
                  owner: map<Handle, Owner>, sources: map<Id, Source>, destinations: map<Id, Destination>,
                  counter: nat, id: Id, s: Source)
    requires Caches(live, before, bound, owner, sources, destinations, counter) && id !in sources
    requires s.image != 0 && s.memory != 0 && s.view != 0 && s.Handles() !! live
    requires SameBirths(live, before, after) && Born(live + s.Handles(), after)
    requires s.generation == counter + 1
    ensures Caches(live + s.Handles(), after, bound, Adopt(owner, s.Handles(), OfSource(id)), sources[id := s],
                   destinations, counter + 1)
  {
    hide Owned, Source.Handles, Destination.Handles, BoundTo, Born, SameBirths;
    AddSourceOwned(live, owner, sources, destinations, id, s);
    FreshAcross(live, before, after, bound, owner, sources, destinations);
  }

  /** A new destination remembers no source. */
  lemma AddDestination(live: set<Handle>, before: map<Handle, nat>, after: map<Handle, nat>, bound: map<nat, nat>,
                       owner: map<Handle, Owner>, sources: map<Id, Source>, destinations: map<Id, Destination>,
                       counter: nat, id: Id, d: Destination)
    requires Caches(live, before, bound, owner, sources, destinations, counter) && id !in destinations
    requires d.buffer != 0 && d.memory != 0 && d.lumaView != 0 && d.chromaView != 0 && d.descriptorSet != 0
    requires d.Handles() !! live && SameBirths(live, before, after) && Born(live + d.Handles(), after)
    requires d.sourceGeneration == 0
    ensures Caches(live + d.Handles(), after, bound, Adopt(owner, d.Handles(), OfDestination(id)), sources,
                   destinations[id := d], counter + 1)
  {
    hide Owned, Source.Handles, Destination.Handles, BoundTo, Born, SameBirths;
    AddDestinationOwned(live, owner, sources, destinations, id, d);
    FreshAcross(live, before, after, bound, owner, sources, destinations);
  }

  /** A failed import leaves the caches as they were, on another counter. */
  lemma FailedImport(live: set<Handle>, before: map<Handle, nat>, after: map<Handle, nat>, bound: map<nat, nat>,
                     owner: map<Handle, Owner>, sources: map<Id, Source>, destinations: map<Id, Destination>, counter: nat)
    requires Caches(live, before, bound, owner, sources, destinations, counter)
    requires SameBirths(live, before, after)
    ensures Caches(live, after, bound, owner, sources, destinations, counter + 1)
  {
    FreshAcross(live, before, after, bound, owner, sources, destinations);
    hide Owned, Fresh;
  }

  /** Writing binding 0 makes the destination fresh for the source, and touches no other set. */
  lemma BindKeeps(live: set<Handle>, born: map<Handle, nat>, bound: map<nat, nat>, owner: map<Handle, Owner>,
                  sources: map<Id, Source>, destinations: map<Id, Destination>, counter: nat, d: Id, s: Id)
    requires Caches(live, born, bound, owner, sources, destinations, counter) && d in destinations && s in sources
    ensures Handle(ImageView, sources[s].view) in live && Handle(ImageView, sources[s].view) in born
    ensures Handle(DescriptorSet, destinations[d].descriptorSet) in live
    ensures var updated := destinations[d := destinations[d].(sourceGeneration := sources[s].generation)];
      var rebound := bound[destinations[d].descriptorSet := born[Handle(ImageView, sources[s].view)]];
      && Caches(live, born, rebound, owner, sources, updated, counter)
      && BoundTo(updated[d], sources[s], rebound, born)
  {
    CachedViewLive(live, owner, sources, destinations, s);
    TouchDestinationOwned(live, owner, sources, destinations, d,
                          destinations[d].(sourceGeneration := sources[s].generation));
    forall other | other in destinations
      ensures Handle(DescriptorSet, destinations[other].descriptorSet) in live
      ensures other != d ==> destinations[other].descriptorSet != destinations[d].descriptorSet
    {
      CachedSetLive(live, owner, sources, destinations, other);
      CachedSetLive(live, owner, sources, destinations, d);
    }
    hide Owned, Source.Handles, Destination.Handles;
    BindFresh(born, bound, sources, destinations, counter, d, s);
  }

  lemma BindFresh(born: map<Handle, nat>, bound: map<nat, nat>, sources: map<Id, Source>,
                  destinations: map<Id, Destination>, counter: nat, d: Id, s: Id)
    requires Generations(sources, destinations, counter) && Fresh(sources, destinations, bound, born)
    requires d in destinations && s in sources && Handle(ImageView, sources[s].view) in born
    requires forall other :: other in destinations && other != d ==>
      destinations[other].descriptorSet != destinations[d].descriptorSet
    ensures var updated := destinations[d := destinations[d].(sourceGeneration := sources[s].generation)];
      var rebound := bound[destinations[d].descriptorSet := born[Handle(ImageView, sources[s].view)]];
      && Generations(sources, updated, counter) && Fresh(sources, updated, rebound, born)
      && BoundTo(updated[d], sources[s], rebound, born)
  {
    var updated := destinations[d := destinations[d].(sourceGeneration := sources[s].generation)];
    var rebound := bound[destinations[d].descriptorSet := born[Handle(ImageView, sources[s].view)]];
    forall x, y | x in updated && y in sources && updated[x].sourceGeneration == sources[y].generation
      ensures BoundTo(updated[x], sources[y], rebound, born)
    {
      if x != d {
        assert BoundTo(destinations[x], sources[y], bound, born);
      }
    }
  }

  // ----- the recency lists -----

  lemma LruLater(used: map<Id, nat>, recency: seq<Id>, counter: nat, capacity: nat)
    requires Lru(used, recency, counter, capacity)
    ensures Lru(used, recency, counter + 1, capacity)
  {
  }

  lemma LruDrop(used: map<Id, nat>, recency: seq<Id>, counter: nat, capacity: nat, id: Id)
    requires Lru(used, recency, counter, capacity)
    ensures Lru(used - {id}, Remove(recency, id), counter, capacity)
  {
    AgreesRemove(used, recency, counter, id);
    RemoveIs(recency, id);
    hide Agrees;
  }

  lemma LruAdd(used: map<Id, nat>, recency: seq<Id>, counter: nat, capacity: nat, id: Id)
    requires Lru(used, recency, counter, capacity) && id !in used && |recency| < capacity
    ensures Lru(used[id := counter + 1], recency + [id], counter + 1, capacity)
  {
    AgreesUse(used, recency, counter, id);
    hide Agrees;
  }

  lemma LruUse(used: map<Id, nat>, recency: seq<Id>, counter: nat, capacity: nat, id: Id)
    requires Lru(used, recency, counter, capacity) && id in used
    ensures id in recency && Lru(used[id := counter + 1], Remove(recency, id) + [id], counter + 1, capacity)
  {
    LruMembers(used, recency, counter, capacity, id);
    hide Agrees, Remove;
    AgreesRemove(used, recency, counter, id);
    AgreesUse(used - {id}, Remove(recency, id), counter, id);
    assert (used - {id})[id := counter + 1] == used[id := counter + 1];
    AgreesSize(used, recency, counter);
    AgreesSize(used[id := counter + 1], Remove(recency, id) + [id], counter + 1);
    assert used[id := counter + 1].Keys == used.Keys;
  }

  lemma LruSize(used: map<Id, nat>, recency: seq<Id>, counter: nat, capacity: nat)
    requires Lru(used, recency, counter, capacity)
    ensures |used| == |recency|
  {
    AgreesSize(used, recency, counter);
  }

  lemma LruRoom(used: map<Id, nat>, recency: seq<Id>, counter: nat, capacity: nat, id: Id)
    requires Lru(used, recency, counter, capacity) && id in used
    ensures |Remove(recency, id)| == |recency| - 1
  {
    RemoveDistinct(recency, id);
  }

  lemma LruMembers(used: map<Id, nat>, recency: seq<Id>, counter: nat, capacity: nat, id: Id)
    requires Lru(used, recency, counter, capacity)
    ensures id in used <==> id in recency
  {
  }

  /** The victim of the scan is the front of the recency list. */
  lemma LruVictim(used: map<Id, nat>, recency: seq<Id>, counter: nat, capacity: nat, oldest: Id)
    requires Lru(used, recency, counter, capacity) && oldest in used
    requires forall id :: id in used ==> used[oldest] <= used[id]
    ensures recency != [] && oldest == recency[0] && Remove(recency, oldest) == recency[1..]
  {
    OldestIsFirst(used, recency, counter, oldest);
    RemoveFirst(recency);
  }

  lemma SourceUseUpdate(sources: map<Id, Source>, id: Id, s: Source)
    ensures SourceUse(sources[id := s]) == SourceUse(sources)[id := s.lastUsed]
    ensures SourceUse(sources - {id}) == SourceUse(sources) - {id}
  {
  }

  lemma SourceUseSize(sources: map<Id, Source>)
    ensures |SourceUse(sources)| == |sources|
  {
    assert SourceUse(sources).Keys == sources.Keys;
  }

  lemma DestinationUseSize(destinations: map<Id, Destination>)
    ensures |DestinationUse(destinations)| == |destinations|
  {
    assert DestinationUse(destinations).Keys == destinations.Keys;
  }

  lemma DestinationUseUpdate(destinations: map<Id, Destination>, id: Id, d: Destination)
    ensures DestinationUse(destinations[id := d]) == DestinationUse(destinations)[id := d.lastUsed]
    ensures DestinationUse(destinations - {id}) == DestinationUse(destinations) - {id}
  {
  }

  // ----- handles that come and go -----

  /** The handles are new, they are all that was created, and nothing older changed. */
  ghost predicate Imported(before: set<Handle>, bornBefore: map<Handle, nat>, live: set<Handle>,
                           born: map<Handle, nat>, handles: set<Handle>) {
    handles !! before && live == before + handles && SameBirths(before, bornBefore, born) && Born(live, born)
  }

  lemma ImportOne(before: set<Handle>, bornBefore: map<Handle, nat>, live: set<Handle>, born: map<Handle, nat>,
                  handles: set<Handle>, h: Handle, number: nat)
    requires Imported(before, bornBefore, live, born, handles) && h !in live
    ensures Imported(before, bornBefore, live + {h}, born[h := number], handles + {h})
  {
  }

  lemma ImportNone(live: set<Handle>, born: map<Handle, nat>)
    requires Born(live, born)
    ensures Imported(live, born, live, born, {})
  {
  }

  lemma NoHandles(signature: Signature, lastUsed: nat)
    ensures Destination(signature, 0, 0, 0, 0, 0, 0, lastUsed).Handles() == {}
  {
  }

  lemma DestinationGrows(d: Destination, value: nat)
    ensures d.buffer == 0 ==> d.(buffer := value).Handles() == d.Handles() + Owning(Buffer, value)
    ensures d.memory == 0 ==> d.(memory := value).Handles() == d.Handles() + Owning(BufferMemory, value)
    ensures d.lumaView == 0 ==> d.(lumaView := value).Handles() == d.Handles() + Owning(LumaView, value)
    ensures d.chromaView == 0 ==> d.(chromaView := value).Handles() == d.Handles() + Owning(ChromaView, value)
    ensures d.descriptorSet == 0 ==> d.(descriptorSet := value).Handles() == d.Handles() + Owning(DescriptorSet, value)
  {
  }

  lemma KeepImported(before: set<Handle>, bornBefore: map<Handle, nat>, live: set<Handle>, born: map<Handle, nat>,
                     handles: set<Handle>)
    requires Imported(before, bornBefore, live, born, handles)
    ensures live == before + handles && handles !! before && handles <= live && live - handles == before
    ensures SameBirths(before, bornBefore, born) && Born(before + handles, born)
  {
  }

  lemma CachesParts(live: set<Handle>, born: map<Handle, nat>, bound: map<nat, nat>, owner: map<Handle, Owner>,
                    sources: map<Id, Source>, destinations: map<Id, Destination>, counter: nat)
    requires Caches(live, born, bound, owner, sources, destinations, counter)
    ensures Born(live, born)
  {
  }

  // ----- the descriptor pool -----

  function DescriptorSets(live: set<Handle>): set<Handle> {
    set h | h in live && h.kind == DescriptorSet
  }

  lemma DescriptorSetsAdd(live: set<Handle>, kind: Kind, value: nat)
    ensures kind != DescriptorSet ==> DescriptorSets(live + Owning(kind, value)) == DescriptorSets(live)
  {
  }

  lemma DescriptorSetsDrop(live: set<Handle>, d: Destination)
    requires d.Handles() <= live && d.descriptorSet != 0
    ensures var h := Handle(DescriptorSet, d.descriptorSet);
      h in DescriptorSets(live) && DescriptorSets(live - d.Handles()) == DescriptorSets(live) - {h}
  {
  }

  /** Without destinations, only the objects of sources live. */
  lemma NoDescriptorSets(live: set<Handle>, owner: map<Handle, Owner>, sources: map<Id, Source>,
                         destinations: map<Id, Destination>)
    requires Owned(live, owner, sources, destinations) && destinations == map[]
    ensures DescriptorSets(live) == {}
  {
    forall h | h in live ensures h.kind != DescriptorSet {
      assert HeldBy(h, owner[h], sources, destinations);
    }
  }

  /** Every live descriptor set belongs to exactly one cached destination. */
  lemma {:induction false} DescriptorSetsCount(live: set<Handle>, owner: map<Handle, Owner>, sources: map<Id, Source>,
                                               destinations: map<Id, Destination>)
    requires Owned(live, owner, sources, destinations)
    ensures |DescriptorSets(live)| == |destinations|
    decreases |destinations|
  {
    hide Owned, Destination.Handles, DescriptorSets, Disown;
    if destinations == map[] {
      NoDescriptorSets(live, owner, sources, destinations);
    } else {
      var id :| id in destinations;
      var gone := destinations[id].Handles();
      DropDestinationOwned(live, owner, sources, destinations, id);
      DestinationSetNonNull(live, owner, sources, destinations, id);
      DescriptorSetsDrop(live, destinations[id]);
      SmallerMap(destinations, id);
      DescriptorSetsCount(live - gone, Disown(owner, gone), sources, destinations - {id});
    }
  }

  lemma SmallerMap(destinations: map<Id, Destination>, id: Id)
    requires id in destinations
    ensures |destinations - {id}| == |destinations| - 1
  {
    assert destinations.Keys == (destinations - {id}).Keys + {id};
  }

  lemma DestinationSetNonNull(live: set<Handle>, owner: map<Handle, Owner>, sources: map<Id, Source>,
                              destinations: map<Id, Destination>, id: Id)
    requires Owned(live, owner, sources, destinations) && id in destinations
    ensures destinations[id].descriptorSet != 0
  {
  }

  /** The pool's use is the length of the recency list. */
  lemma PoolUse(live: set<Handle>, born: map<Handle, nat>, bound: map<nat, nat>, owner: map<Handle, Owner>,
                    sources: map<Id, Source>, destinations: map<Id, Destination>, counter: nat, recency: seq<Id>)
    requires Caches(live, born, bound, owner, sources, destinations, counter)
    requires Lru(DestinationUse(destinations), recency, counter, DESTINATION_CAPACITY)
    ensures |DescriptorSets(live)| == |recency|
  {
    hide Owned, DescriptorSets, DestinationUse, Lru;
    DescriptorSetsCount(live, owner, sources, destinations);
    DestinationUseSize(destinations);
    LruSize(DestinationUse(destinations), recency, counter, DESTINATION_CAPACITY);
  }

  lemma CreatedOnly(before: set<Handle>, bornBefore: map<Handle, nat>, live: set<Handle>, born: map<Handle, nat>,
                    live': set<Handle>, born': map<Handle, nat>, handles: set<Handle>, kind: Kind, value: nat)
    requires Imported(before, bornBefore, live, born, handles)
    requires Imported(before, bornBefore, live', born', handles + Owning(kind, value))
    requires kind != DescriptorSet
    ensures DescriptorSets(live') == DescriptorSets(live)
  {
    DescriptorSetsAdd(live, kind, value);
    assert live' == live + Owning(kind, value);
  }

  // ----- which buffer a view was imported for -----

  /** What a view was created for. */
  datatype Purpose = Purpose(bufferId: Id, signature: Signature)

  /** The cached sources' views were imported for them. `imports` is keyed by creation numbers, which
      never come back. */
  ghost predicate Traced(sources: map<Id, Source>, born: map<Handle, nat>, imports: map<nat, Purpose>) {
    forall id :: id in sources ==> TracedSource(id, sources[id], born, imports)
  }

  ghost predicate TracedSource(id: Id, s: Source, born: map<Handle, nat>, imports: map<nat, Purpose>) {
    var h := Handle(ImageView, s.view);
    h in born && born[h] in imports && imports[born[h]] == Purpose(id, s.signature)
  }

  ghost predicate Numbered(imports: map<nat, Purpose>, created: nat) {
    forall n :: n in imports ==> n < created
  }

  lemma TracedUse(sources: map<Id, Source>, born: map<Handle, nat>, imports: map<nat, Purpose>, id: Id, lastUsed: nat)
    requires Traced(sources, born, imports) && id in sources
    ensures Traced(sources[id := sources[id].(lastUsed := lastUsed)], born, imports)
  {
    assert TracedSource(id, sources[id], born, imports);
  }

  lemma TracedDrop(sources: map<Id, Source>, born: map<Handle, nat>, imports: map<nat, Purpose>, id: Id)
    requires Traced(sources, born, imports)
    ensures Traced(sources - {id}, born, imports)
  {
  }

  lemma TracedAcross(live: set<Handle>, before: map<Handle, nat>, after: map<Handle, nat>, bound: map<nat, nat>,
                     owner: map<Handle, Owner>, sources: map<Id, Source>, destinations: map<Id, Destination>,
                     counter: nat, imports: map<nat, Purpose>)
    requires Caches(live, before, bound, owner, sources, destinations, counter)
    requires SameBirths(live, before, after) && Traced(sources, before, imports)
    ensures Traced(sources, after, imports)
  {
    hide Owned, Born, Generations, Fresh;
    forall id | id in sources ensures TracedSource(id, sources[id], after, imports) {
      assert TracedSource(id, sources[id], before, imports);
      CachedViewLive(live, owner, sources, destinations, id);
    }
  }

  /** A new view gets a number that no import had before. */
  lemma TracedAdd(sources: map<Id, Source>, born: map<Handle, nat>, imports: map<nat, Purpose>, created: nat, id: Id,
                  s: Source)
    requires Traced(sources, born, imports) && Numbered(imports, created)
    requires Handle(ImageView, s.view) in born && created <= born[Handle(ImageView, s.view)]
    ensures var number := born[Handle(ImageView, s.view)];
      && Traced(sources[id := s], born, imports[number := Purpose(id, s.signature)])
      && Grows(imports, imports[number := Purpose(id, s.signature)])
  {
    forall other | other in sources && other != id ensures born[Handle(ImageView, sources[other].view)] < created {
      assert TracedSource(other, sources[other], born, imports);
    }
  }

  /** What was recorded stays. */
  ghost predicate Grows(imports: map<nat, Purpose>, imports': map<nat, Purpose>) {
    forall n :: n in imports ==> n in imports' && imports'[n] == imports[n]
  }
}
