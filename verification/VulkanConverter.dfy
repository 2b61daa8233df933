/** The RGB to NV12 converter: every dispatch reads the image it was asked to read. */
module VulkanConverter {
  import opened Wrappers
  import opened Integers
  import opened Recency
  import opened VulkanDevice
  import opened VulkanCaches

  const ABGR8888: uint32 := 0x3432_4241
  const ARGB8888: uint32 := 0x3432_5241
  const XBGR8888: uint32 := 0x3432_4258
  const XRGB8888: uint32 := 0x3432_5258
  const RGB565: uint32 := 0x3631_4752
  const MODIFIER_INVALID: uint64 := 0x00FF_FFFF_FFFF_FFFF

  predicate IsRgbFormat(format: uint32) {
    format in {ABGR8888, ARGB8888, XBGR8888, XRGB8888, RGB565}
  }

  predicate ValidSource(b: Nv12.DmaBuf) {
    IsRgbFormat(b.drmFormat) && |b.planes| == 1 && b.planes[0].fd >= 0 && b.width != 0 && b.height != 0
  }

  /** One submitted conversion: the creation numbers of the view that the destination's descriptor
      set reads and of the view that was imported for the source. */
  datatype Dispatched = Dispatched(source: Nv12.DmaBuf, destination: Nv12.DmaBuf, read: nat, imported: nat)

  datatype Command = Initialize | Convert(source: Nv12.DmaBuf, destination: Nv12.DmaBuf) | Reset

  /** The view that is read was imported for this source's buffer in this layout, and is the one cached
      for it; the conversion writes where the destination can be addressed. */
  ghost predicate Sound(d: Dispatched, imports: map<nat, Purpose>) {
    && d.read == d.imported && d.read in imports
    && imports[d.read] == Purpose(d.source.bufferId, SignatureOf(d.source))
    && ValidSource(d.source) && Nv12.ValidDestination(d.source, d.destination)
  }

  class Converter {
    const device: Vulkan
    var ready: bool
    var limits: Nv12.Limits
    var sources: map<Id, Source>
    var destinations: map<Id, Destination>
    var counter: nat
    ghost var owner: map<Handle, Owner>
    ghost var sourceRecency: seq<Id>
    ghost var destinationRecency: seq<Id>
    ghost var dispatched: seq<Dispatched>
    ghost var imports: map<nat, Purpose>

    ghost predicate Valid()
      reads this`ready, this`limits, this`sources, this`destinations, this`counter, this`owner,
            this`sourceRecency, this`destinationRecency, this`dispatched, this`imports, device
    {
      && Caches(device.live, device.born, device.bound, owner, sources, destinations, counter)
      && Lru(SourceUse(sources), sourceRecency, counter, SOURCE_CAPACITY)
      && Lru(DestinationUse(destinations), destinationRecency, counter, DESTINATION_CAPACITY)
      && limits.Valid() && AllBindable(destinations, limits)
      && (!ready ==> sources == map[] && destinations == map[])
      && Traced(sources, device.born, imports) && Numbered(imports, device.created)
      && AllSound(dispatched, imports)
    }

    constructor ()
      ensures Valid() && fresh(device) && dispatched == []
      ensures sourceRecency == [] && destinationRecency == []
    {
      device := new Vulkan();
      ready, limits, sources, destinations, counter := false, Nv12.Limits(1, 0), map[], map[], 0;
      owner, sourceRecency, destinationRecency, dispatched, imports := map[], [], [], [], map[];
    }

    // ----- sources -----

    method DestroySource(s: Source)
      requires s.Handles() <= device.live
      modifies device`live
      ensures device.live == old(device.live) - s.Handles()
    {
      device.Destroy(ImageView, s.view);
      device.Destroy(Image, s.image);
      device.Destroy(ImageMemory, s.memory);
    }

    /** Creates the objects of a source one by one; on failure some of them exist. */
    method ImportSource(b: Nv12.DmaBuf, lastUsed: nat) returns (status: Status, s: Source)
      requires Born(device.live, device.born)
      modifies device`live, device`born, device`created
      ensures Imported(old(device.live), old(device.born), device.live, device.born, s.Handles())
      ensures old(device.created) <= device.created
      ensures status == OK ==>
        && s.image != 0 && s.memory != 0 && s.view != 0 && Handle(ImageView, s.view) in device.born
        && old(device.created) <= device.born[Handle(ImageView, s.view)] < device.created
      ensures s.signature == SignatureOf(b) && s.lastUsed == lastUsed && s.generation == lastUsed
    {
      s := Source(SignatureOf(b), 0, 0, 0, lastUsed, lastUsed);
      status := Omitted;
      ImportNone(device.live, device.born);
      assert s.Handles() == {};
      if !IsRgbFormat(b.drmFormat) || b.modifier == MODIFIER_INVALID { return; }

      var image := CreateObject(Image, old(device.live), old(device.born), s.Handles());
      s := s.(image := image);
      if image == 0 { return; }

      var descriptorCopied, memoryTypeFound := *, *;
      if !descriptorCopied { return Corrupted, s; }
      if !memoryTypeFound { return; }

      var memory := CreateObject(ImageMemory, old(device.live), old(device.born), s.Handles());
      s := s.(memory := memory);
      var memoryBound := *;
      if memory == 0 || !memoryBound { return; }

      var view := CreateObject(ImageView, old(device.live), old(device.born), s.Handles());
      s := s.(view := view);
      if view == 0 { return; }
      status := OK;
    }

    /** Another object of an import. */
    method CreateObject(kind: Kind, ghost before: set<Handle>, ghost bornBefore: map<Handle, nat>,
                        ghost handles: set<Handle>) returns (value: nat)
      requires Imported(before, bornBefore, device.live, device.born, handles)
      modifies device`live, device`born, device`created
      ensures Imported(before, bornBefore, device.live, device.born, handles + Owning(kind, value))
      ensures old(device.created) <= device.created
      ensures value != 0 ==>
        Handle(kind, value) in device.born && old(device.created) <= device.born[Handle(kind, value)] < device.created
    {
      hide Imported;
      ghost var live, born, number := device.live, device.born, device.created;
      value := device.Create(kind);
      if value != 0 {
        ImportOne(before, bornBefore, live, born, handles, Handle(kind, value), number);
      } else {
        assert handles + Owning(kind, value) == handles;
      }
    }

    /** A hit: the entry becomes the most recently used one. */
    method UseSource(id: Id)
      requires Valid() && id in sources
      modifies this`sources, this`counter, this`sourceRecency
      ensures Valid() && counter == old(counter) + 1
      ensures sources == old(sources)[id := old(sources[id]).(lastUsed := counter)]
      ensures id in old(sourceRecency) && sourceRecency == Remove(old(sourceRecency), id) + [id]
    {
      hide Caches, Lru, DestinationUse, AllBindable, AllSound, Remove, Traced;
      TracedUse(sources, device.born, imports, id, counter + 1);
      VulkanCaches.UseSource(device.live, device.born, device.bound, owner, sources, destinations, counter, id);
      LruUse(SourceUse(sources), sourceRecency, counter, SOURCE_CAPACITY, id);
      LruLater(DestinationUse(destinations), destinationRecency, counter, DESTINATION_CAPACITY);
      SourceUseUpdate(sources, id, sources[id].(lastUsed := counter + 1));
      counter := counter + 1;
      sources := sources[id := sources[id].(lastUsed := counter)];
      sourceRecency := Remove(sourceRecency, id) + [id];
    }

    /** Destroys an entry and erases it. */
    method DropSource(id: Id)
      requires Valid() && id in sources
      modifies this`sources, this`owner, this`sourceRecency, device`live
      ensures Valid() && sources == old(sources) - {id} && sourceRecency == Remove(old(sourceRecency), id)
    {
      hide Caches, Lru, DestinationUse, AllBindable, AllSound, Remove, Source.Handles, Traced;
      TracedDrop(sources, device.born, imports, id);
      VulkanCaches.DropSource(device.live, device.born, device.bound, owner, sources, destinations, counter, id);
      LruDrop(SourceUse(sources), sourceRecency, counter, SOURCE_CAPACITY, id);
      SourceUseUpdate(sources, id, sources[id]);
      DestroySource(sources[id]);
      owner := Disown(owner, sources[id].Handles());
      sources := sources - {id};
      sourceRecency := Remove(sourceRecency, id);
    }

    /** The scan of a hash map, in whatever order it is walked. */
    method EvictOldestSource()
      requires Valid() && sources != map[]
      modifies this`sources, this`owner, this`sourceRecency, device`live
      ensures Valid() && old(sourceRecency) != []
      ensures sources == old(sources) - {old(sourceRecency)[0]} && sourceRecency == old(sourceRecency)[1..]
    {
      var current := sources.Keys;
      var oldest := None;
      while current != {}
        invariant current <= sources.Keys && (oldest.None? ==> current == sources.Keys)
        invariant oldest.Some? ==> oldest.value in sources
        invariant oldest.Some? ==> forall id :: id in sources && id !in current ==>
                                     sources[oldest.value].lastUsed <= sources[id].lastUsed
      {
        var id :| id in current;
        if oldest.None? || sources[id].lastUsed < sources[oldest.value].lastUsed {
          oldest := Some(id);
        }
        current := current - {id};
      }
      hide Caches, Lru, DestinationUse, AllBindable, AllSound, Remove;
      LruVictim(SourceUse(sources), sourceRecency, counter, SOURCE_CAPACITY, oldest.value);
      DropSource(oldest.value);
    }

    /** A miss: the entry is imported, or nothing of it stays. */
    method InsertSource(b: Nv12.DmaBuf) returns (status: Status)
      requires Valid() && ready && b.bufferId !in sources && |sourceRecency| < SOURCE_CAPACITY
      modifies this`sources, this`counter, this`owner, this`sourceRecency, this`imports
      modifies device`live, device`born, device`created
      ensures Valid() && counter == old(counter) + 1
      ensures status != OK ==> sources == old(sources) && sourceRecency == old(sourceRecency)
      ensures status == OK ==>
        && b.bufferId in sources && sources == old(sources)[b.bufferId := sources[b.bufferId]]
        && sources[b.bufferId].signature == SignatureOf(b) && sources[b.bufferId].generation == counter
        && sourceRecency == old(sourceRecency) + [b.bufferId]
    {
      hide Caches, Lru, DestinationUse, AllBindable, AllSound, Source.Handles, Imported, SignatureOf, Traced, Grows;
      ghost var live, born, created := device.live, device.born, device.created;
      var id := b.bufferId;
      CachesParts(live, born, device.bound, owner, sources, destinations, counter);
      LruLater(SourceUse(sources), sourceRecency, counter, SOURCE_CAPACITY);
      LruLater(DestinationUse(destinations), destinationRecency, counter, DESTINATION_CAPACITY);
      var s;
      status, s := ImportSource(b, counter + 1);
      KeepImported(live, born, device.live, device.born, s.Handles());
      TracedAcross(live, born, device.born, device.bound, owner, sources, destinations, counter, imports);
      if status == OK {
        TracedAdd(sources, device.born, imports, created, id, s);
        ghost var imports' := imports[device.born[Handle(ImageView, s.view)] := Purpose(id, s.signature)];
        SoundGrows(dispatched, imports, imports');
        imports := imports';
        AddSource(live, born, device.born, device.bound, owner, sources, destinations, counter, id, s);
        LruAdd(SourceUse(sources), sourceRecency, counter, SOURCE_CAPACITY, id);
        SourceUseUpdate(sources, id, s);
        sources := sources[id := s];
        owner := Adopt(owner, s.Handles(), OfSource(id));
        sourceRecency := sourceRecency + [id];
      } else {
        FailedImport(live, born, device.born, device.bound, owner, sources, destinations, counter);
        DestroySource(s);
      }
      counter := counter + 1;
    }

    /** The cache lookup: a hit returns an entry of the requested layout; anything else imports the
        buffer anew, after making room. */
    method GetSourceResource(b: Nv12.DmaBuf) returns (status: Status)
      requires Valid() && ready
      modifies this`sources, this`counter, this`owner, this`sourceRecency, this`imports
      modifies device`live, device`born, device`created
      ensures Valid() && counter == old(counter) + 1
      ensures status == OK ==> SourceHit(sources, b)
      ensures SourceHit(old(sources), b) ==>
        && status == OK && device.live == old(device.live)
        && sources == old(sources)[b.bufferId := old(sources[b.bufferId]).(lastUsed := counter)]
      ensures status == OK && !SourceHit(old(sources), b) ==> sources[b.bufferId].generation == counter
      ensures sourceRecency == Request(old(sourceRecency), b.bufferId, SOURCE_CAPACITY, status == OK)
    {
      hide Caches, DestinationUse, AllBindable, AllSound, SignatureOf, Agrees, Remove;
      var id := b.bufferId;
      LruMembers(SourceUse(sources), sourceRecency, counter, SOURCE_CAPACITY, id);
      RemoveIs(sourceRecency, id);
      if id in sources {
        LruRoom(SourceUse(sources), sourceRecency, counter, SOURCE_CAPACITY, id);
        if sources[id].signature == SignatureOf(b) {
          UseSource(id);
          return OK;
        }
        DropSource(id);
      }
      LruSize(SourceUse(sources), sourceRecency, counter, SOURCE_CAPACITY);
      SourceUseSize(sources);
      if |sources| >= SOURCE_CAPACITY {
        EvictOldestSource();
      }
      LruMembers(SourceUse(sources), sourceRecency, counter, SOURCE_CAPACITY, id);
      status := InsertSource(b);
    }

    // ----- destinations -----

    method DestroyDestination(d: Destination)
      requires d.Handles() <= device.live
      modifies device`live
      ensures device.live == old(device.live) - d.Handles()
    {
      device.Destroy(DescriptorSet, d.descriptorSet);
      device.Destroy(ChromaView, d.chromaView);
      device.Destroy(LumaView, d.lumaView);
      device.Destroy(Buffer, d.buffer);
      device.Destroy(BufferMemory, d.memory);
    }

    /** `vkAllocateDescriptorSets`: the pool must have room. */
    method AllocateSet(ghost before: set<Handle>, ghost bornBefore: map<Handle, nat>, ghost handles: set<Handle>)
      returns (value: nat)
      requires |DescriptorSets(device.live)| < DESTINATION_CAPACITY
      requires Imported(before, bornBefore, device.live, device.born, handles)
      modifies device`live, device`born, device`created
      ensures Imported(before, bornBefore, device.live, device.born, handles + Owning(DescriptorSet, value))
      ensures old(device.created) <= device.created
    {
      value := CreateObject(DescriptorSet, before, bornBefore, handles);
    }

    /** The buffer, its memory and its two views; on failure some of them exist. */
    method ImportPlanes(b: Nv12.DmaBuf, lastUsed: nat) returns (status: Status, d: Destination)
      requires Born(device.live, device.born)
      modifies device`live, device`born, device`created
      ensures Imported(old(device.live), old(device.born), device.live, device.born, d.Handles())
      ensures DescriptorSets(device.live) == DescriptorSets(old(device.live)) && old(device.created) <= device.created
      ensures status == OK ==> d.buffer != 0 && d.memory != 0 && d.lumaView != 0 && d.chromaView != 0
      ensures d == Destination(SignatureOf(b), d.buffer, d.memory, d.lumaView, d.chromaView, 0, 0, lastUsed)
    {
      hide Imported, DescriptorSets, SignatureOf, Owning;
      NoHandles(SignatureOf(b), lastUsed);
      d := Destination(SignatureOf(b), 0, 0, 0, 0, 0, 0, lastUsed);
      status := Omitted;
      ImportNone(device.live, device.born);

      var buffer := CreatePart(Buffer, old(device.live), old(device.born), d.Handles());
      DestinationGrows(d, buffer);
      d := d.(buffer := buffer);
      if buffer == 0 { return; }

      var descriptorCopied, memoryTypeFound := *, *;
      if !descriptorCopied { return Corrupted, d; }
      if !memoryTypeFound { return; }

      var memory := CreatePart(BufferMemory, old(device.live), old(device.born), d.Handles());
      DestinationGrows(d, memory);
      d := d.(memory := memory);
      var memoryBound := *;
      if memory == 0 || !memoryBound { return; }

      var lumaView := CreatePart(LumaView, old(device.live), old(device.born), d.Handles());
      DestinationGrows(d, lumaView);
      d := d.(lumaView := lumaView);
      if lumaView == 0 { return; }

      var chromaView := CreatePart(ChromaView, old(device.live), old(device.born), d.Handles());
      DestinationGrows(d, chromaView);
      d := d.(chromaView := chromaView);
      if chromaView == 0 { return; }
      status := OK;
    }

    /** Anything but a descriptor set. */
    method CreatePart(kind: Kind, ghost before: set<Handle>, ghost bornBefore: map<Handle, nat>,
                      ghost handles: set<Handle>) returns (value: nat)
      requires kind != DescriptorSet && Imported(before, bornBefore, device.live, device.born, handles)
      modifies device`live, device`born, device`created
      ensures Imported(before, bornBefore, device.live, device.born, handles + Owning(kind, value))
      ensures DescriptorSets(device.live) == DescriptorSets(old(device.live)) && old(device.created) <= device.created
    {
      hide DescriptorSets;
      value := CreateObject(kind, before, bornBefore, handles);
      CreatedOnly(before, bornBefore, old(device.live), old(device.born), device.live, device.born, handles, kind, value);
    }

    /** The layout is checked before anything is created. */
    method ImportDestination(b: Nv12.DmaBuf, lastUsed: nat) returns (status: Status, d: Destination)
      requires |b.planes| == 2 && limits.Valid()
      requires Born(device.live, device.born) && |DescriptorSets(device.live)| < DESTINATION_CAPACITY
      modifies device`live, device`born, device`created
      ensures Imported(old(device.live), old(device.born), device.live, device.born, d.Handles())
      ensures old(device.created) <= device.created
      ensures status == OK ==>
        && d.buffer != 0 && d.memory != 0 && d.lumaView != 0 && d.chromaView != 0 && d.descriptorSet != 0
        && Nv12.Addressable(b, limits)
      ensures d.signature == SignatureOf(b) && d.lastUsed == lastUsed && d.sourceGeneration == 0
    {
      hide DescriptorSets, SignatureOf, Imported, Nv12.Addressable, Owning;
      NoHandles(SignatureOf(b), lastUsed);
      d := Destination(SignatureOf(b), 0, 0, 0, 0, 0, 0, lastUsed);
      ImportNone(device.live, device.born);
      var sameObject := *;
      if !sameObject { return BadValue, d; }
      if !Nv12.Addressable(b, limits) { return Omitted, d; }
      status, d := ImportPlanes(b, lastUsed);
      if status != OK { return; }
      var descriptorSet := AllocateSet(old(device.live), old(device.born), d.Handles());
      DestinationGrows(d, descriptorSet);
      d := d.(descriptorSet := descriptorSet);
      if descriptorSet == 0 { status := Omitted; }
    }

    method UseDestination(id: Id)
      requires Valid() && id in destinations
      modifies this`destinations, this`counter, this`destinationRecency
      ensures Valid() && counter == old(counter) + 1
      ensures destinations == old(destinations)[id := old(destinations)[id].(lastUsed := counter)]
      ensures id in old(destinationRecency) && destinationRecency == Remove(old(destinationRecency), id) + [id]
    {
      hide Caches, Lru, SourceUse, Bindable, AllSound, Remove;
      VulkanCaches.UseDestination(device.live, device.born, device.bound, owner, sources, destinations, counter, id);
      DestinationUseUpdate(destinations, id, destinations[id].(lastUsed := counter + 1));
      LruUse(DestinationUse(destinations), destinationRecency, counter, DESTINATION_CAPACITY, id);
      LruLater(SourceUse(sources), sourceRecency, counter, SOURCE_CAPACITY);
      counter := counter + 1;
      destinations := destinations[id := destinations[id].(lastUsed := counter)];
      destinationRecency := Remove(destinationRecency, id) + [id];
    }

    method DropDestination(id: Id)
      requires Valid() && id in destinations
      modifies this`destinations, this`owner, this`destinationRecency, device`live
      ensures Valid() && destinations == old(destinations) - {id}
      ensures destinationRecency == Remove(old(destinationRecency), id)
    {
      hide Caches, Lru, SourceUse, DestinationUse, Bindable, AllSound, Remove, Destination.Handles;
      VulkanCaches.DropDestination(device.live, device.born, device.bound, owner, sources, destinations, counter, id);
      DestinationUseUpdate(destinations, id, destinations[id]);
      LruDrop(DestinationUse(destinations), destinationRecency, counter, DESTINATION_CAPACITY, id);
      DestroyDestination(destinations[id]);
      owner := Disown(owner, destinations[id].Handles());
      destinations := destinations - {id};
      destinationRecency := Remove(destinationRecency, id);
    }

    method EvictOldestDestination()
      requires Valid() && destinations != map[]
      modifies this`destinations, this`owner, this`destinationRecency, device`live
      ensures Valid() && old(destinationRecency) != []
      ensures destinations == old(destinations) - {old(destinationRecency)[0]}
      ensures destinationRecency == old(destinationRecency)[1..]
    {
      var current := destinations.Keys;
      var oldest := None;
      while current != {}
        invariant current <= destinations.Keys && (oldest.None? ==> current == destinations.Keys)
        invariant oldest.Some? ==> oldest.value in destinations
        invariant oldest.Some? ==> forall id :: id in destinations && id !in current ==>
                                     destinations[oldest.value].lastUsed <= destinations[id].lastUsed
      {
        var id :| id in current;
        if oldest.None? || destinations[id].lastUsed < destinations[oldest.value].lastUsed {
          oldest := Some(id);
        }
        current := current - {id};
      }
      hide Caches, Lru, SourceUse, AllBindable, AllSound, Remove;
      LruVictim(DestinationUse(destinations), destinationRecency, counter, DESTINATION_CAPACITY, oldest.value);
      DropDestination(oldest.value);
    }

    method InsertDestination(b: Nv12.DmaBuf) returns (status: Status)
      requires Valid() && ready && |b.planes| == 2
      requires b.bufferId !in destinations && |destinationRecency| < DESTINATION_CAPACITY
      modifies this`destinations, this`counter, this`owner, this`destinationRecency
      modifies device`live, device`born, device`created
      ensures Valid() && counter == old(counter) + 1
      ensures status != OK ==> destinations == old(destinations) && destinationRecency == old(destinationRecency)
      ensures status == OK ==>
        && b.bufferId in destinations && destinations == old(destinations)[b.bufferId := destinations[b.bufferId]]
        && destinations[b.bufferId].signature == SignatureOf(b)
        && destinationRecency == old(destinationRecency) + [b.bufferId]
    {
      hide Caches, Lru, SourceUse, Bindable, AllSound, Destination.Handles, Imported, SignatureOf;
      hide DescriptorSets, Nv12.Addressable, Traced;
      ghost var live, born := device.live, device.born;
      var id := b.bufferId;
      CachesParts(live, born, device.bound, owner, sources, destinations, counter);
      PoolUse(live, born, device.bound, owner, sources, destinations, counter, destinationRecency);
      LruLater(SourceUse(sources), sourceRecency, counter, SOURCE_CAPACITY);
      LruLater(DestinationUse(destinations), destinationRecency, counter, DESTINATION_CAPACITY);
      var d;
      status, d := ImportDestination(b, counter + 1);
      KeepImported(live, born, device.live, device.born, d.Handles());
      TracedAcross(live, born, device.born, device.bound, owner, sources, destinations, counter, imports);
      if status == OK {
        AddDestination(live, born, device.born, device.bound, owner, sources, destinations, counter, id, d);
        LruAdd(DestinationUse(destinations), destinationRecency, counter, DESTINATION_CAPACITY, id);
        DestinationUseUpdate(destinations, id, d);
        BindableBySignature(b, limits);
        StoreDestination(id, d);
      } else {
        FailedImport(live, born, device.born, device.bound, owner, sources, destinations, counter);
        DestroyDestination(d);
        counter := counter + 1;
      }
    }

    method StoreDestination(id: Id, d: Destination)
      modifies this`destinations, this`counter, this`owner, this`destinationRecency
      ensures destinations == old(destinations)[id := d] && counter == old(counter) + 1
      ensures owner == Adopt(old(owner), d.Handles(), OfDestination(id))
      ensures destinationRecency == old(destinationRecency) + [id]
    {
      destinations := destinations[id := d];
      owner := Adopt(owner, d.Handles(), OfDestination(id));
      destinationRecency := destinationRecency + [id];
      counter := counter + 1;
    }

    method GetDestinationResource(b: Nv12.DmaBuf) returns (status: Status)
      requires Valid() && ready && |b.planes| == 2
      modifies this`destinations, this`counter, this`owner, this`destinationRecency
      modifies device`live, device`born, device`created
      ensures Valid() && counter == old(counter) + 1
      ensures status == OK ==> DestinationHit(destinations, b)
      ensures DestinationHit(old(destinations), b) ==>
        && status == OK && device.live == old(device.live)
        && destinations == old(destinations)[b.bufferId := old(destinations[b.bufferId]).(lastUsed := counter)]
      ensures destinationRecency == Request(old(destinationRecency), b.bufferId, DESTINATION_CAPACITY, status == OK)
    {
      hide Caches, SourceUse, AllBindable, AllSound, SignatureOf, Agrees, Remove;
      var id := b.bufferId;
      LruMembers(DestinationUse(destinations), destinationRecency, counter, DESTINATION_CAPACITY, id);
      RemoveIs(destinationRecency, id);
      if id in destinations {
        LruRoom(DestinationUse(destinations), destinationRecency, counter, DESTINATION_CAPACITY, id);
        if destinations[id].signature == SignatureOf(b) {
          UseDestination(id);
          return OK;
        }
        DropDestination(id);
      }
      LruSize(DestinationUse(destinations), destinationRecency, counter, DESTINATION_CAPACITY);
      DestinationUseSize(destinations);
      if |destinations| >= DESTINATION_CAPACITY {
        EvictOldestDestination();
      }
      LruMembers(DestinationUse(destinations), destinationRecency, counter, DESTINATION_CAPACITY, id);
      status := InsertDestination(b);
    }

    // ----- conversions -----

    /** Opening the device either works or leaves nothing behind. */
    method Initialize() returns (status: Status)
      requires Valid()
      modifies this, device`live
      ensures Valid() && dispatched == old(dispatched) && (status == OK || status == Omitted)
      ensures status == OK ==>
        ready && sourceRecency == old(sourceRecency) && destinationRecency == old(destinationRecency)
      ensures old(ready) ==>
        && status == OK && sources == old(sources) && destinations == old(destinations)
        && counter == old(counter) && device.live == old(device.live)
      ensures !old(ready) ==> sources == map[] && destinations == map[] && sourceRecency == destinationRecency == []
    {
      hide Caches, AllBindable, AllSound;
      if ready { return OK; }
      var found: bool, alignment: uint64, texels: uint32 := *, *, *;
      EmptyRecency(sources, sourceRecency, destinations, destinationRecency, counter);
      if !found || alignment == 0 {
        Reset();
        return Omitted;
      }
      hide SourceUse, DestinationUse, Lru;
      NoneBindable(Nv12.Limits(alignment, texels));
      ready, limits := true, Nv12.Limits(alignment, texels);
      status := OK;
    }

    method DestroyAllSources()
      requires Valid()
      modifies this`sources, this`owner, this`sourceRecency, device`live
      ensures Valid() && sources == map[]
    {
      while sources != map[]
        invariant Valid()
        decreases |sources|
      {
        var id :| id in sources;
        hide *;
        SmallerSources(sources, id);
        DropSource(id);
      }
    }

    method DestroyAllDestinations()
      requires Valid()
      modifies this`destinations, this`owner, this`destinationRecency, device`live
      ensures Valid() && destinations == map[]
    {
      while destinations != map[]
        invariant Valid()
        decreases |destinations|
      {
        var id :| id in destinations;
        hide *;
        SmallerMap(destinations, id);
        DropDestination(id);
      }
    }

    /** Everything that was imported is destroyed, once. */
    method Reset()
      requires Valid()
      modifies this, device`live
      ensures Valid() && dispatched == old(dispatched)
      ensures !ready && device.live == {} && sources == map[] && destinations == map[] && counter == 0
      ensures sourceRecency == destinationRecency == []
    {
      hide Caches, Lru, AllSound, SourceUse, DestinationUse, AllBindable;
      DestroyAllSources();
      DestroyAllDestinations();
      EmptyRecency(sources, sourceRecency, destinations, destinationRecency, counter);
      EmptyCaches(device.live, device.born, device.bound, owner, counter);
      ready, counter := false, 0;
    }

    /** Binds the source's view to binding 0 unless the remembered generation says it is there. */
    method BindIfStale(s: Id, d: Id)
      requires Valid() && s in sources && d in destinations
      modifies this`destinations, device`bound
      ensures Valid()
      ensures destinations == old(destinations)[d := old(destinations)[d].(sourceGeneration := sources[s].generation)]
      ensures BoundTo(destinations[d], sources[s], device.bound, device.born)
      ensures Handle(ImageView, sources[s].view) in device.live
    {
      hide Lru, SourceUse, Bindable, AllSound, BoundTo, Owned, Born, Generations;
      BindKeeps(device.live, device.born, device.bound, owner, sources, destinations, counter, d, s);
      DestinationUseUpdate(destinations, d, destinations[d].(sourceGeneration := sources[s].generation));
      UseSame(destinations, d);
      hide DestinationUse;
      if destinations[d].sourceGeneration != sources[s].generation {
        hide Caches;
        device.BindSource(destinations[d].descriptorSet, sources[s].view);
        destinations := destinations[d := destinations[d].(sourceGeneration := sources[s].generation)];
      } else {
        assert destinations[d := destinations[d].(sourceGeneration := sources[s].generation)] == destinations;
      }
    }

    /** The compute pass: records it, submits it and waits for it. */
    method Dispatch(source: Nv12.DmaBuf, destination: Nv12.DmaBuf) returns (status: Status)
      requires Valid() && SourceHit(sources, source) && DestinationHit(destinations, destination)
      requires ValidSource(source) && Nv12.ValidDestination(source, destination)
      requires BoundTo(destinations[destination.bufferId], sources[source.bufferId], device.bound, device.born)
      modifies this`dispatched
      ensures Valid()
      ensures status == OK || status == Corrupted
      ensures dispatched == old(dispatched) ==> status == Corrupted
      ensures dispatched == old(dispatched) || dispatched == old(dispatched) + [Submission(source, destination)]
    {
      hide Caches, Lru, SourceUse, DestinationUse, AllBindable, Nv12.ValidDestination, ValidSource;
      var submitted, completed := *, *;
      if !submitted { return Corrupted; }
      assert Sound(Submission(source, destination), imports) by {
        assert TracedSource(source.bufferId, sources[source.bufferId], device.born, imports);
      }
      dispatched := dispatched + [Submission(source, destination)];
      status := if completed then OK else Corrupted;
    }

    /** What the bound descriptor set reads, and what was imported for the source. */
    ghost function Submission(source: Nv12.DmaBuf, destination: Nv12.DmaBuf): Dispatched
      requires source.bufferId in sources && destination.bufferId in destinations
      requires BoundTo(destinations[destination.bufferId], sources[source.bufferId], device.bound, device.born)
      reads this`sources, this`destinations, device`bound, device`born
    {
      Dispatched(source, destination, device.bound[destinations[destination.bufferId].descriptorSet],
                 device.born[Handle(ImageView, sources[source.bufferId].view)])
    }

    /** At the dispatch, binding 0 of the destination's descriptor set is the live view that was
        imported for this very source in its present layout, and both planes can be addressed. */
    ghost predicate Submitted(source: Nv12.DmaBuf, destination: Nv12.DmaBuf)
      requires limits.Valid()
      reads this`sources, this`destinations, this`dispatched, this`limits, device
    {
      && SourceHit(sources, source) && DestinationHit(destinations, destination)
      && Handle(ImageView, sources[source.bufferId].view) in device.live
      && BoundTo(destinations[destination.bufferId], sources[source.bufferId], device.bound, device.born)
      && dispatched != [] && dispatched[|dispatched| - 1] == Submission(source, destination)
      && |destination.planes| == 2 && Nv12.Addressable(destination, limits)
    }

    method Convert(source: Nv12.DmaBuf, destination: Nv12.DmaBuf) returns (status: Status)
      requires Valid()
      modifies this, device`live, device`born, device`created, device`bound
      ensures Valid()
      ensures !ValidSource(source) ==> status == Omitted
      ensures old(ready) && ValidSource(source) && !Nv12.ValidDestination(source, destination) ==>
        status == BadValue && sources == old(sources) && destinations == old(destinations)
      ensures status == OK ==> dispatched != old(dispatched)
      ensures dispatched != old(dispatched) ==>
        && |dispatched| == |old(dispatched)| + 1 && dispatched[..|old(dispatched)|] == old(dispatched)
        && Submitted(source, destination)
      ensures status == OK ==>
        && ValidSource(source) && Nv12.ValidDestination(source, destination)
        && sourceRecency == Request(old(sourceRecency), source.bufferId, SOURCE_CAPACITY, true)
        && destinationRecency == Request(old(destinationRecency), destination.bufferId, DESTINATION_CAPACITY, true)
    {
      hide Caches, Lru, SourceUse, DestinationUse, AllBindable, AllSound, Nv12.Addressable, SignatureOf, BoundTo, Request;
      hide Traced, Numbered, ValidSource, Sound;
      status := Initialize();
      if status != OK { return Omitted; }
      if !ValidSource(source) { return Omitted; }
      if !Nv12.ValidDestination(source, destination) { return BadValue; }
      status := GetSourceResource(source);
      if status != OK { return; }
      status := GetDestinationResource(destination);
      if status != OK { return; }
      BindIfStale(source.bufferId, destination.bufferId);
      BoundBySignature(destinations, destination, limits);
      status := Dispatch(source, destination);
    }
  }


  lemma EmptyRecency(sources: map<Id, Source>, sourceRecency: seq<Id>, destinations: map<Id, Destination>,
                     destinationRecency: seq<Id>, counter: nat)
    requires Lru(SourceUse(sources), sourceRecency, counter, SOURCE_CAPACITY)
    requires Lru(DestinationUse(destinations), destinationRecency, counter, DESTINATION_CAPACITY)
    requires sources == map[] && destinations == map[]
    ensures sourceRecency == destinationRecency == []
    ensures Lru(SourceUse(sources), [], 0, SOURCE_CAPACITY) && Lru(DestinationUse(destinations), [], 0, DESTINATION_CAPACITY)
  {
    LruSize(SourceUse(sources), sourceRecency, counter, SOURCE_CAPACITY);
    LruSize(DestinationUse(destinations), destinationRecency, counter, DESTINATION_CAPACITY);
    assert SourceUse(sources) == map[] && DestinationUse(destinations) == map[];
  }

  lemma EmptyCaches(live: set<Handle>, born: map<Handle, nat>, bound: map<nat, nat>, owner: map<Handle, Owner>, counter: nat)
    requires Caches(live, born, bound, owner, map[], map[], counter)
    ensures live == {} && Caches(live, born, bound, owner, map[], map[], 0)
  {
    assert forall h :: h in owner ==> HeldBy(h, owner[h], map[], map[]);
  }

  lemma NoneBindable(limits: Nv12.Limits)
    requires limits.Valid()
    ensures AllBindable(map[], limits)
  {
  }

  lemma SmallerSources(sources: map<Id, Source>, id: Id)
    requires id in sources
    ensures |sources - {id}| == |sources| - 1
  {
    assert sources.Keys == (sources - {id}).Keys + {id};
  }

  lemma UseSame(destinations: map<Id, Destination>, id: Id)
    requires id in destinations
    ensures DestinationUse(destinations)[id := destinations[id].lastUsed] == DestinationUse(destinations)
  {
  }

  /** A cached destination of this layout was checked when it was imported. */
  lemma BoundBySignature(destinations: map<Id, Destination>, b: Nv12.DmaBuf, limits: Nv12.Limits)
    requires limits.Valid() && |b.planes| == 2 && AllBindable(destinations, limits) && DestinationHit(destinations, b)
    ensures Nv12.Addressable(b, limits)
  {
    BindableBySignature(b, limits);
  }

  ghost predicate AllBindable(destinations: map<Id, Destination>, limits: Nv12.Limits)
    requires limits.Valid()
  {
    forall id :: id in destinations ==> Bindable(destinations[id].signature, limits)
  }

  ghost predicate AllSound(dispatched: seq<Dispatched>, imports: map<nat, Purpose>) {
    forall d :: d in dispatched ==> Sound(d, imports)
  }

  lemma SoundGrows(dispatched: seq<Dispatched>, imports: map<nat, Purpose>, imports': map<nat, Purpose>)
    requires AllSound(dispatched, imports) && Grows(imports, imports')
    ensures AllSound(dispatched, imports')
  {
    hide ValidSource, Nv12.ValidDestination, SignatureOf;
  }

  predicate SourceHit(sources: map<Id, Source>, b: Nv12.DmaBuf) {
    b.bufferId in sources && sources[b.bufferId].signature == SignatureOf(b)
  }

  predicate DestinationHit(destinations: map<Id, Destination>, b: Nv12.DmaBuf) {
    b.bufferId in destinations && destinations[b.bufferId].signature == SignatureOf(b)
  }

  // ----- whole runs -----

  /** Any run, with whatever hits, evictions, layout changes, failed imports, resets and recycled
      handle values: every dispatch read the view that was imported for its source. */
  method AnyRun(commands: seq<Command>) returns (c: Converter)
    ensures c.Valid() && forall d :: d in c.dispatched ==> Sound(d, c.imports)
  {
    hide Sound, Nv12.Addressable;
    c := new Converter();
    for k := 0 to |commands|
      invariant c.Valid() && fresh(c) && fresh(c.device)
    {
      match commands[k]
      case Initialize => var _ := c.Initialize();
      case Convert(source, destination) => var _ := c.Convert(source, destination);
      case Reset => c.Reset();
    }
  }

  function SourceIds(pairs: seq<(Nv12.DmaBuf, Nv12.DmaBuf)>): (ids: seq<Id>)
    ensures |ids| == |pairs|
  {
    seq(|pairs|, k requires 0 <= k < |pairs| => pairs[k].0.bufferId)
  }

  function DestinationIds(pairs: seq<(Nv12.DmaBuf, Nv12.DmaBuf)>): (ids: seq<Id>)
    ensures |ids| == |pairs|
  {
    seq(|pairs|, k requires 0 <= k < |pairs| => pairs[k].1.bufferId)
  }

  lemma ServeStep(ids: seq<Id>, k: nat, capacity: nat)
    requires k < |ids|
    ensures Serve(ids[..k + 1], capacity) == Request(Serve(ids[..k], capacity), ids[k], capacity, true)
  {
    assert ids[..k + 1][..k] == ids[..k];
  }

  /** After conversions that all succeed, each cache holds exactly the buffers used most recently. */
  method ConvertAll(pairs: seq<(Nv12.DmaBuf, Nv12.DmaBuf)>) returns (c: Converter, ok: bool)
    ensures c.Valid()
    ensures ok ==>
      && |c.dispatched| == |pairs|
      && c.sourceRecency == Last(ByLastUse(SourceIds(pairs)), SOURCE_CAPACITY)
      && c.destinationRecency == Last(ByLastUse(DestinationIds(pairs)), DESTINATION_CAPACITY)
  {
    hide Serve, Request, ByLastUse, Last, Nv12.Addressable, Nv12.ValidDestination, ValidSource;
    c := new Converter();
    ghost var sourceIds, destinationIds := SourceIds(pairs), DestinationIds(pairs);
    ServeNothing(SOURCE_CAPACITY);
    ServeNothing(DESTINATION_CAPACITY);
    for k := 0 to |pairs|
      invariant c.Valid() && fresh(c) && fresh(c.device) && |c.dispatched| == k
      invariant c.sourceRecency == Serve(sourceIds[..k], SOURCE_CAPACITY)
      invariant c.destinationRecency == Serve(destinationIds[..k], DESTINATION_CAPACITY)
    {
      var status := c.Convert(pairs[k].0, pairs[k].1);
      if status != OK { return c, false; }
      ServeStep(sourceIds, k, SOURCE_CAPACITY);
      ServeStep(destinationIds, k, DESTINATION_CAPACITY);
    }
    ServeIsTruncatedHistory(sourceIds, SOURCE_CAPACITY);
    ServeIsTruncatedHistory(destinationIds, DESTINATION_CAPACITY);
    ok := true;
    assert sourceIds[..|pairs|] == sourceIds && destinationIds[..|pairs|] == destinationIds;
  }

  lemma ServeNothing(capacity: nat)
    ensures Serve([], capacity) == []
  {
  }
}
