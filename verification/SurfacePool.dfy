/** The VA-API decoder's direct output: one decoder thread imports Codec2 blocks as surfaces while
    consumers drop frames at any time. Each critical section is one atomic step. */
module SurfacePool {
  import opened Wrappers

  type BufferId = nat
  type SurfaceId = nat
  /** The address of a reference; a freed address may come back. */
  type Pointer = nat

  datatype Block = Block(width: nat, height: nat, bufferId: BufferId)

  /** From its allocation to the last step of its release. */
  datatype Phase = New | Published | Framed | Called | Erased | Destroyed

  datatype Reference = Reference(bufferId: BufferId, surface: SurfaceId, phase: Phase)

  /** Where the decoder thread is between `AcquireDecoderBlock` and `av_buffer_create`. */
  datatype Pc =
    | Idle
    | Scanning(width: nat, height: nat)
    | ReadingPool(width: nat, height: nat)
    | Fetching(width: nat, height: nat)
    | Checking(width: nat, height: nat, block: Block)
    | Acquired(width: nat, height: nat, block: Block)
    | Surfaced(bufferId: BufferId, surface: SurfaceId)
    | Holding(pointer: Pointer)

  /** `live` are the surfaces that exist. `dangling` are `AVBuffer`s whose reference was released
      under them; `bad` is set when a reference is used or released a second time, or a surface is
      destroyed that does not exist. `owner` is history: no step reads it. */
  datatype State = State(
    pc: Pc, pending: seq<Block>, disabled: bool, hasPool: bool,
    surfaces: map<SurfaceId, Pointer>, active: map<BufferId, Pointer>, heap: map<Pointer, Reference>,
    live: set<SurfaceId>, dangling: set<Pointer>, bad: bool, owner: map<SurfaceId, Pointer>)

  datatype Fetched = WouldBlock | Refused | Unusable | Got(bufferId: BufferId)

  datatype Step =
    | Acquire(width: nat, height: nat)
    | ScanPending
    | ReadPool
    | Fetch(result: Fetched)
    | CheckActive
    | CreateSurface(surface: Option<SurfaceId>)
    | Allocate(address: Option<Pointer>)
    | Publish
    | Wrap(ok: bool)
    | DropFrame(pointer: Pointer)
    | Erase(pointer: Pointer)
    | DestroySurface(pointer: Pointer)
    | Delete(pointer: Pointer)
    | SetPool(present: bool)
    | Reset

  /** The scan of the parked blocks: those of another size are dropped, and the first one whose
      buffer is not in use is taken. */
  function Scan(pending: seq<Block>, width: nat, height: nat, active: set<BufferId>): (seq<Block>, Option<Block>)
    decreases |pending|
  {
    if pending == [] then ([], None)
    else
      var b := pending[0];
      if b.width == width && b.height == height && b.bufferId !in active then (pending[1..], Some(b))
      else
        var rest := Scan(pending[1..], width, height, active);
        if b.width == width && b.height == height then ([b] + rest.0, rest.1) else rest
  }

  /** `unordered_map::emplace` leaves a key that is present alone. */
  function Emplace(m: map<nat, Pointer>, key: nat, p: Pointer): map<nat, Pointer> {
    if key in m then m else m[key := p]
  }

  function EraseIf(m: map<nat, Pointer>, key: nat, p: Pointer): map<nat, Pointer> {
    if key in m && m[key] == p then m - {key} else m
  }

  predicate Is(s: State, p: Pointer, phase: Phase) {
    p in s.heap && s.heap[p].phase == phase
  }

  function Rephase(s: State, p: Pointer, phase: Phase): State
    requires p in s.heap
  {
    s.(heap := s.heap[p := s.heap[p].(phase := phase)])
  }

  function Apply(s: State, step: Step): Option<State> {
    match step
    case Acquire(w, h) => if s.pc.Idle? then Some(s.(pc := Scanning(w, h))) else None
    case ScanPending => if s.pc.Scanning? then Some(AfterScan(s)) else None
    case ReadPool =>
      if !s.pc.ReadingPool? then None
      else Some(s.(pc := if s.hasPool then Fetching(s.pc.width, s.pc.height) else Idle))
    case Fetch(result) => if s.pc.Fetching? then Some(AfterFetch(s, result)) else None
    case CheckActive => if s.pc.Checking? then Some(AfterCheck(s)) else None
    case CreateSurface(surface) =>
      if !s.pc.Acquired? || (surface.Some? && surface.value in s.live) then None
      else Some(AfterCreate(s, surface))
    case Allocate(address) =>
      if !s.pc.Surfaced? || (address.Some? && address.value in s.heap) then None
      else Some(AfterAllocate(s, address))
    case Publish => if s.pc.Holding? && Is(s, s.pc.pointer, New) then Some(AfterPublish(s)) else None
    case Wrap(ok) =>
      if !(s.pc.Holding? && Is(s, s.pc.pointer, Published)) then None
      else Some(Rephase(s, s.pc.pointer, if ok then Framed else Called).(pc := Idle))
    case DropFrame(p) =>
      if Is(s, p, Framed) then Some(Rephase(s, p, Called))
      else if p in s.dangling then Some(s.(dangling := s.dangling - {p}, bad := true))
      else None
    case Erase(p) => if Is(s, p, Called) then Some(AfterErase(s, p)) else None
    case DestroySurface(p) => if Is(s, p, Erased) then Some(AfterDestroy(s, p)) else None
    case Delete(p) => if Is(s, p, Destroyed) then Some(s.(heap := s.heap - {p})) else None
    case SetPool(present) => Some(s.(pending := [], hasPool := present, disabled := false))
    case Reset => if s.pc.Idle? then Some(AfterReset(s)) else None
  }

  function AfterScan(s: State): State
    requires s.pc.Scanning?
  {
    if s.disabled then s.(pc := Idle)
    else
      var r := Scan(s.pending, s.pc.width, s.pc.height, s.active.Keys);
      s.(pending := r.0, pc := if r.1.Some? then Acquired(s.pc.width, s.pc.height, r.1.value)
                               else ReadingPool(s.pc.width, s.pc.height))
  }

  function AfterFetch(s: State, result: Fetched): State
    requires s.pc.Fetching?
  {
    match result
    case WouldBlock => s.(pc := Scanning(s.pc.width, s.pc.height))
    case Refused => s.(pc := Idle, disabled := true)
    case Unusable => s.(pc := Idle, disabled := true)
    case Got(bufferId) =>
      s.(pc := Checking(s.pc.width, s.pc.height, Block(s.pc.width, s.pc.height, bufferId)))
  }

  /** A block whose buffer the decoder still references is parked. */
  function AfterCheck(s: State): State
    requires s.pc.Checking?
  {
    if s.pc.block.bufferId in s.active then
      s.(pending := s.pending + [s.pc.block], pc := Scanning(s.pc.width, s.pc.height))
    else s.(pc := Acquired(s.pc.width, s.pc.height, s.pc.block))
  }

  function AfterCreate(s: State, surface: Option<SurfaceId>): State
    requires s.pc.Acquired?
  {
    if surface.None? then s.(pc := Idle, disabled := true)
    else s.(pc := Surfaced(s.pc.block.bufferId, surface.value), live := s.live + {surface.value})
  }

  function AfterAllocate(s: State, address: Option<Pointer>): State
    requires s.pc.Surfaced?
  {
    if address.None? then s.(pc := Idle, live := s.live - {s.pc.surface})
    else s.(pc := Holding(address.value), owner := s.owner[s.pc.surface := address.value],
            heap := s.heap[address.value := Reference(s.pc.bufferId, s.pc.surface, New)])
  }

  function AfterPublish(s: State): State
    requires s.pc.Holding? && s.pc.pointer in s.heap
  {
    var p := s.pc.pointer;
    Rephase(s, p, Published).(surfaces := Emplace(s.surfaces, s.heap[p].surface, p),
                              active := Emplace(s.active, s.heap[p].bufferId, p))
  }

  function AfterErase(s: State, p: Pointer): State
    requires p in s.heap
  {
    Rephase(s, p, Erased).(surfaces := EraseIf(s.surfaces, s.heap[p].surface, p),
                           active := EraseIf(s.active, s.heap[p].bufferId, p))
  }

  function AfterDestroy(s: State, p: Pointer): State
    requires p in s.heap
  {
    var surface := s.heap[p].surface;
    Rephase(s, p, Destroyed).(live := s.live - {surface}, bad := s.bad || surface !in s.live,
                              owner := EraseIf(s.owner, surface, p))
  }

  /** Every reference still in the map is released, whoever else may own it. */
  function AfterReset(s: State): State {
    var references := set p | p in s.surfaces.Values && p in s.heap;
    s.(surfaces := map[], active := map[], pending := [], hasPool := false, disabled := false,
       heap := s.heap + (map p | p in references :: s.heap[p].(phase := Called)),
       dangling := s.dangling + (set p | p in references && s.heap[p].phase == Framed),
       bad := s.bad || (exists p :: p in references && s.heap[p].phase == Called))
  }

  const OPENED := State(Idle, [], false, false, map[], map[], map[], {}, {}, false, map[])

  function Run(s: State, steps: seq<Step>): Option<State>
    decreases |steps|
  {
    if steps == [] then Some(s)
    else
      match Apply(s, steps[0])
      case None => None
      case Some(t) => Run(t, steps[1..])
  }

  // ----- the scan in place -----

  /** The loop erases from the vector while it walks it. */
  method ScanInPlace(parked: seq<Block>, width: nat, height: nat, active: set<BufferId>)
    returns (pending: seq<Block>, taken: Option<Block>)
    ensures (pending, taken) == Scan(parked, width, height, active)
  {
    pending := parked;
    var it := 0;
    Resumed(parked, width, height, active);
    assert parked[..0] == [] && parked[0..] == parked;
    while it < |pending|
      invariant it <= |pending|
      invariant Resume(pending[..it], pending[it..], width, height, active) == Scan(parked, width, height, active)
      decreases |pending| - it
    {
      ghost var kept, rest := pending[..it], pending[it..];
      var b := pending[it];
      if b.width != width || b.height != height {
        pending := pending[..it] + pending[it + 1..];
        assert pending[..it] == kept && pending[it..] == rest[1..];
      } else if b.bufferId in active {
        ResumeKeeps(kept, rest, width, height, active);
        it := it + 1;
        assert pending[..it] == kept + [b] && pending[it..] == rest[1..];
      } else {
        pending := pending[..it] + pending[it + 1..];
        assert rest[1..] == pending[it..];
        return pending, Some(b);
      }
    }
    assert pending[it..] == [] && pending[..it] + [] == pending;
    return pending, None;
  }

  function Resume(kept: seq<Block>, rest: seq<Block>, width: nat, height: nat, active: set<BufferId>)
    : (seq<Block>, Option<Block>)
  {
    (kept + Scan(rest, width, height, active).0, Scan(rest, width, height, active).1)
  }

  lemma Resumed(rest: seq<Block>, width: nat, height: nat, active: set<BufferId>)
    ensures Resume([], rest, width, height, active) == Scan(rest, width, height, active)
  {
    var r := Scan(rest, width, height, active);
    assert [] + r.0 == r.0;
  }

  lemma ResumeKeeps(kept: seq<Block>, rest: seq<Block>, width: nat, height: nat, active: set<BufferId>)
    requires rest != [] && rest[0].width == width && rest[0].height == height && rest[0].bufferId in active
    ensures Resume(kept + [rest[0]], rest[1..], width, height, active) == Resume(kept, rest, width, height, active)
  {
    var r := Scan(rest[1..], width, height, active).0;
    assert kept + [rest[0]] + r == kept + ([rest[0]] + r);
  }

  lemma {:induction false} ScanTakes(pending: seq<Block>, width: nat, height: nat, active: set<BufferId>)
    ensures var taken := Scan(pending, width, height, active).1;
      taken.Some? ==>
        taken.value.width == width && taken.value.height == height && taken.value.bufferId !in active
    decreases |pending|
  {
    if pending != [] {
      ScanTakes(pending[1..], width, height, active);
    }
  }

  // ----- invariant -----

  /** `m` looks up exactly what `keys` says. */
  ghost predicate Inverse(keys: map<Pointer, nat>, m: map<nat, Pointer>) {
    && (forall p :: p in keys ==> keys[p] in m && m[keys[p]] == p)
    && (forall k :: k in m ==> m[k] in keys && keys[m[k]] == k)
  }

  /** The references that both maps must index. */
  predicate Mapped(phase: Phase) {
    phase == Published || phase == Framed || phase == Called
  }

  function MappedSurfaces(heap: map<Pointer, Reference>): map<Pointer, SurfaceId> {
    map p | p in heap && Mapped(heap[p].phase) :: heap[p].surface
  }

  function MappedBuffers(heap: map<Pointer, Reference>): map<Pointer, BufferId> {
    map p | p in heap && Mapped(heap[p].phase) :: heap[p].bufferId
  }

  /** The references whose surface still exists. */
  function LiveSurfaces(heap: map<Pointer, Reference>): map<Pointer, SurfaceId> {
    map p | p in heap && heap[p].phase != Destroyed :: heap[p].surface
  }

  /** The decoder thread holds the one reference that nobody else has. */
  ghost predicate InHand(pc: Pc, heap: map<Pointer, Reference>) {
    && (pc.Holding? ==> pc.pointer in heap && (heap[pc.pointer].phase == New || heap[pc.pointer].phase == Published))
    && forall p :: p in heap && (heap[p].phase == New || heap[p].phase == Published) ==> pc == Holding(p)
  }

  /** Surfaces are neither leaked nor destroyed early. */
  predicate SurfacesOwned(pc: Pc, live: set<SurfaceId>, owner: map<SurfaceId, Pointer>) {
    live == owner.Keys + (if pc.Surfaced? then {pc.surface} else {})
    && (pc.Surfaced? ==> pc.surface !in owner)
  }

  /** The block in the decoder thread's hands has the requested size, and its buffer is not in use. */
  predicate Exclusive(pc: Pc, heap: map<Pointer, Reference>, active: map<BufferId, Pointer>) {
    match pc
    case Checking(w, h, b) => b.width == w && b.height == h
    case Acquired(w, h, b) => b.width == w && b.height == h && b.bufferId !in active
    case Surfaced(bufferId, _) => bufferId !in active
    case Holding(p) => p in heap && heap[p].phase == New ==> heap[p].bufferId !in active
    case _ => true
  }

  ghost predicate Inv(s: State) {
    && Inverse(MappedSurfaces(s.heap), s.surfaces) && Inverse(MappedBuffers(s.heap), s.active)
    && Inverse(LiveSurfaces(s.heap), s.owner) && SurfacesOwned(s.pc, s.live, s.owner)
    && InHand(s.pc, s.heap) && Exclusive(s.pc, s.heap, s.active)
    && s.dangling == {} && !s.bad
  }

  // ----- how the maps follow the heap -----

  lemma KeysUpdate(heap: map<Pointer, Reference>, p: Pointer, r: Reference)
    ensures MappedSurfaces(heap[p := r]) ==
            if Mapped(r.phase) then MappedSurfaces(heap)[p := r.surface] else MappedSurfaces(heap) - {p}
    ensures MappedBuffers(heap[p := r]) ==
            if Mapped(r.phase) then MappedBuffers(heap)[p := r.bufferId] else MappedBuffers(heap) - {p}
    ensures LiveSurfaces(heap[p := r]) ==
            if r.phase != Destroyed then LiveSurfaces(heap)[p := r.surface] else LiveSurfaces(heap) - {p}
  {
  }

  lemma KeysOf(heap: map<Pointer, Reference>, p: Pointer)
    ensures p in MappedSurfaces(heap) <==> p in heap && Mapped(heap[p].phase)
    ensures p in MappedBuffers(heap) <==> p in heap && Mapped(heap[p].phase)
    ensures p in LiveSurfaces(heap) <==> p in heap && heap[p].phase != Destroyed
    ensures p in MappedSurfaces(heap) ==>
      MappedSurfaces(heap)[p] == heap[p].surface && MappedBuffers(heap)[p] == heap[p].bufferId
    ensures p in LiveSurfaces(heap) ==> LiveSurfaces(heap)[p] == heap[p].surface
  {
  }

  lemma InverseSame(keys: map<Pointer, nat>, m: map<nat, Pointer>, p: Pointer, k: nat)
    requires Inverse(keys, m)
    ensures p in keys && keys[p] == k ==> keys[p := k] == keys && k in m && m[k] == p
    ensures p !in keys ==> keys - {p} == keys
  {
  }

  lemma InverseAdd(keys: map<Pointer, nat>, m: map<nat, Pointer>, p: Pointer, k: nat)
    requires Inverse(keys, m) && p !in keys && k !in m
    ensures Inverse(keys[p := k], m[k := p])
  {
  }

  lemma InverseRemove(keys: map<Pointer, nat>, m: map<nat, Pointer>, p: Pointer)
    requires Inverse(keys, m) && p in keys
    ensures keys[p] in m && m[keys[p]] == p && Inverse(keys - {p}, m - {keys[p]})
  {
  }

  /** A key of `m` belongs to a reference of the heap. */
  lemma InverseKey(keys: map<Pointer, nat>, m: map<nat, Pointer>, k: nat)
    requires Inverse(keys, m) && k in m
    ensures m[k] in keys && keys[m[k]] == k
  {
  }

  // ----- every step keeps the invariant -----

  predicate Fetches(step: Step) {
    step.Acquire? || step.ScanPending? || step.ReadPool? || step.Fetch? || step.CheckActive? || step.SetPool?
  }

  /** Nothing is held and no surface is on its way. */
  predicate Unowned(pc: Pc) {
    !pc.Surfaced? && !pc.Holding?
  }

  /** Before a surface exists, only the program counter and the parked blocks change. */
  lemma FetchChanges(s: State, step: Step)
    requires Exclusive(s.pc, s.heap, s.active) && Fetches(step) && Apply(s, step).Some?
    ensures var t := Apply(s, step).value;
      && t == s.(pc := t.pc, pending := t.pending, disabled := t.disabled, hasPool := t.hasPool)
      && (t.pc == s.pc || (Unowned(s.pc) && Unowned(t.pc))) && Exclusive(t.pc, s.heap, s.active)
  {
    hide AfterScan, AfterFetch, AfterCheck;
    match step
    case ScanPending => ScanChanges(s);
    case Fetch(result) => FetchedChanges(s, result);
    case CheckActive => CheckedChanges(s);
    case _ =>
  }

  lemma FetchedChanges(s: State, result: Fetched)
    requires s.pc.Fetching?
    ensures var t := AfterFetch(s, result);
      t == s.(pc := t.pc, disabled := t.disabled) && Unowned(t.pc) && Exclusive(t.pc, s.heap, s.active)
  {
  }

  lemma CheckedChanges(s: State)
    requires s.pc.Checking? && Exclusive(s.pc, s.heap, s.active)
    ensures var t := AfterCheck(s);
      t == s.(pc := t.pc, pending := t.pending) && Unowned(t.pc) && Exclusive(t.pc, s.heap, s.active)
  {
  }

  lemma ScanChanges(s: State)
    requires s.pc.Scanning?
    ensures var t := AfterScan(s);
      && t == s.(pc := t.pc, pending := t.pending) && Unowned(t.pc) && Exclusive(t.pc, s.heap, s.active)
  {
    hide Scan;
    ScanTakes(s.pending, s.pc.width, s.pc.height, s.active.Keys);
  }

  lemma FetchKeeps(s: State, step: Step)
    requires Inv(s) && Fetches(step) && Apply(s, step).Some?
    ensures Inv(Apply(s, step).value)
  {
    hide Inverse, MappedSurfaces, MappedBuffers, LiveSurfaces, Exclusive, Apply, Fetches;
    FetchChanges(s, step);
  }

  lemma CreateKeeps(s: State, surface: Option<SurfaceId>)
    requires Inv(s) && Apply(s, CreateSurface(surface)).Some?
    ensures Inv(Apply(s, CreateSurface(surface)).value)
  {
    hide Inverse, MappedSurfaces, MappedBuffers, LiveSurfaces;
  }

  lemma AllocateKeeps(s: State, address: Option<Pointer>)
    requires Inv(s) && Apply(s, Allocate(address)).Some?
    ensures Inv(Apply(s, Allocate(address)).value)
  {
    hide Inverse, MappedSurfaces, MappedBuffers, LiveSurfaces;
    if address.Some? {
      var p := address.value;
      KeysOf(s.heap, p);
      KeysUpdate(s.heap, p, Reference(s.pc.bufferId, s.pc.surface, New));
      InverseSame(MappedSurfaces(s.heap), s.surfaces, p, 0);
      InverseSame(MappedBuffers(s.heap), s.active, p, 0);
      InverseAdd(LiveSurfaces(s.heap), s.owner, p, s.pc.surface);
    }
  }

  /** Both maps get the reference: its surface is its own, and its buffer is not in use. */
  lemma PublishKeeps(s: State)
    requires Inv(s) && Apply(s, Publish).Some?
    ensures Inv(Apply(s, Publish).value)
  {
    hide Inverse, MappedSurfaces, MappedBuffers, LiveSurfaces;
    var p := s.pc.pointer;
    var r := s.heap[p];
    KeysOf(s.heap, p);
    KeysUpdate(s.heap, p, r.(phase := Published));
    NotIndexed(s, p);
    InverseAdd(MappedSurfaces(s.heap), s.surfaces, p, r.surface);
    InverseAdd(MappedBuffers(s.heap), s.active, p, r.bufferId);
    InverseSame(LiveSurfaces(s.heap), s.owner, p, r.surface);
  }

  /** Two references never share a surface, so a new one's is not in the map. */
  lemma NotIndexed(s: State, p: Pointer)
    requires Inverse(MappedSurfaces(s.heap), s.surfaces) && Inverse(LiveSurfaces(s.heap), s.owner)
    requires Is(s, p, New)
    ensures s.heap[p].surface !in s.surfaces
  {
    hide Inverse, MappedSurfaces, MappedBuffers, LiveSurfaces;
    var k := s.heap[p].surface;
    KeysOf(s.heap, p);
    InverseSame(LiveSurfaces(s.heap), s.owner, p, k);
    LiveOnce(s.heap, s.owner, p);
    if k in s.surfaces {
      InverseKey(MappedSurfaces(s.heap), s.surfaces, k);
      KeysOf(s.heap, s.surfaces[k]);
      LiveOnce(s.heap, s.owner, s.surfaces[k]);
      assert false;
    }
  }

  lemma LiveOnce(heap: map<Pointer, Reference>, owner: map<SurfaceId, Pointer>, p: Pointer)
    requires Inverse(LiveSurfaces(heap), owner) && p in heap && heap[p].phase != Destroyed
    ensures heap[p].surface in owner && owner[heap[p].surface] == p
  {
    KeysOf(heap, p);
    hide LiveSurfaces;
  }

  /** A reference that changes hands stays in both maps. */
  lemma RephaseKeeps(s: State, p: Pointer, phase: Phase)
    requires Inverse(MappedSurfaces(s.heap), s.surfaces) && Inverse(MappedBuffers(s.heap), s.active)
    requires Inverse(LiveSurfaces(s.heap), s.owner)
    requires p in s.heap && Mapped(s.heap[p].phase) && Mapped(phase)
    ensures var heap := Rephase(s, p, phase).heap;
      && Inverse(MappedSurfaces(heap), s.surfaces) && Inverse(MappedBuffers(heap), s.active)
      && Inverse(LiveSurfaces(heap), s.owner)
  {
    hide Inverse, MappedSurfaces, MappedBuffers, LiveSurfaces;
    KeysOf(s.heap, p);
    KeysUpdate(s.heap, p, s.heap[p].(phase := phase));
    InverseSame(MappedSurfaces(s.heap), s.surfaces, p, s.heap[p].surface);
    InverseSame(MappedBuffers(s.heap), s.active, p, s.heap[p].bufferId);
    InverseSame(LiveSurfaces(s.heap), s.owner, p, s.heap[p].surface);
  }

  lemma WrapKeeps(s: State, ok: bool)
    requires Inv(s) && Apply(s, Wrap(ok)).Some?
    ensures Inv(Apply(s, Wrap(ok)).value)
  {
    hide Inverse, MappedSurfaces, MappedBuffers, LiveSurfaces;
    RephaseKeeps(s, s.pc.pointer, if ok then Framed else Called);
  }

  lemma DropKeeps(s: State, p: Pointer)
    requires Inv(s) && Apply(s, DropFrame(p)).Some?
    ensures Inv(Apply(s, DropFrame(p)).value)
  {
    hide Inverse, MappedSurfaces, MappedBuffers, LiveSurfaces;
    RephaseKeeps(s, p, Called);
  }

  lemma EraseKeeps(s: State, p: Pointer)
    requires Inv(s) && Apply(s, Erase(p)).Some?
    ensures Inv(Apply(s, Erase(p)).value)
  {
    hide Inverse, MappedSurfaces, MappedBuffers, LiveSurfaces;
    KeysOf(s.heap, p);
    KeysUpdate(s.heap, p, s.heap[p].(phase := Erased));
    InverseRemove(MappedSurfaces(s.heap), s.surfaces, p);
    InverseRemove(MappedBuffers(s.heap), s.active, p);
    InverseSame(LiveSurfaces(s.heap), s.owner, p, s.heap[p].surface);
  }

  lemma DestroyKeeps(s: State, p: Pointer)
    requires Inv(s) && Apply(s, DestroySurface(p)).Some?
    ensures Inv(Apply(s, DestroySurface(p)).value)
  {
    hide Inverse, MappedSurfaces, MappedBuffers, LiveSurfaces;
    KeysOf(s.heap, p);
    KeysUpdate(s.heap, p, s.heap[p].(phase := Destroyed));
    InverseSame(MappedSurfaces(s.heap), s.surfaces, p, 0);
    InverseSame(MappedBuffers(s.heap), s.active, p, 0);
    InverseRemove(LiveSurfaces(s.heap), s.owner, p);
  }

  lemma DeleteKeeps(s: State, p: Pointer)
    requires Inv(s) && Apply(s, Delete(p)).Some?
    ensures Inv(Apply(s, Delete(p)).value)
  {
    hide Inverse;
    KeysOf(s.heap, p);
    assert MappedSurfaces(s.heap - {p}) == MappedSurfaces(s.heap);
    assert MappedBuffers(s.heap - {p}) == MappedBuffers(s.heap);
    assert LiveSurfaces(s.heap - {p}) == LiveSurfaces(s.heap);
  }

  /** `Reset` runs when no `AVBuffer` outlives the codec context and no callback of one is about to
      enter its critical section. Releases past that point may still be under way. */
  predicate Orderly(s: State, step: Step) {
    step.Reset? ==> forall p :: p in s.heap ==> s.heap[p].phase != Framed && s.heap[p].phase != Called
  }

  /** Under its premise, `Reset` finds nothing to release, and a surface that is left belongs to a
      release that will destroy it. */
  lemma ResetKeeps(s: State)
    requires Inv(s) && s.pc.Idle? && Orderly(s, Reset)
    ensures s.surfaces == map[] && s.active == map[] && AfterReset(s).heap == s.heap
    ensures forall k :: k in s.live ==> k in s.owner && Is(s, s.owner[k], Erased)
    ensures Inv(AfterReset(s))
  {
    assert MappedSurfaces(s.heap) == map[] && MappedBuffers(s.heap) == map[];
    NothingIndexed(s.surfaces);
    NothingIndexed(s.active);
    forall k | k in s.live ensures k in s.owner && Is(s, s.owner[k], Erased) {
      InverseKey(LiveSurfaces(s.heap), s.owner, k);
      KeysOf(s.heap, s.owner[k]);
    }
    hide Inverse, MappedSurfaces, MappedBuffers, LiveSurfaces, Apply;
    assert AfterReset(s).heap == s.heap && AfterReset(s).dangling == {};
  }

  lemma NothingIndexed(m: map<nat, Pointer>)
    requires Inverse(map[], m)
    ensures m == map[]
  {
  }

  lemma StepKeeps(s: State, step: Step)
    requires Inv(s) && Apply(s, step).Some? && Orderly(s, step)
    ensures Inv(Apply(s, step).value)
  {
    if Fetches(step) {
      FetchKeeps(s, step);
    } else {
      hide Inv, Orderly;
      match step
      case CreateSurface(surface) => CreateKeeps(s, surface);
      case Allocate(address) => AllocateKeeps(s, address);
      case Publish => PublishKeeps(s);
      case Wrap(ok) => WrapKeeps(s, ok);
      case DropFrame(p) => DropKeeps(s, p);
      case Erase(p) => EraseKeeps(s, p);
      case DestroySurface(p) => DestroyKeeps(s, p);
      case Delete(p) => DeleteKeeps(s, p);
      case Reset => ResetKeeps(s);
    }
  }

  // ----- every interleaving -----

  predicate OrderlyRun(s: State, steps: seq<Step>)
    decreases |steps|
  {
    if steps == [] then true
    else Orderly(s, steps[0]) && (Apply(s, steps[0]).Some? ==> OrderlyRun(Apply(s, steps[0]).value, steps[1..]))
  }

  lemma {:induction false} RunKeeps(s: State, steps: seq<Step>)
    requires Inv(s) && OrderlyRun(s, steps) && Run(s, steps).Some?
    ensures Inv(Run(s, steps).value)
    decreases |steps|
  {
    hide Inv, Apply, Orderly;
    if steps != [] {
      StepKeeps(s, steps[0]);
      RunKeeps(Apply(s, steps[0]).value, steps[1..]);
    }
  }

  lemma Opened()
    ensures Inv(OPENED)
  {
  }

  /** The two maps index the same references, each of them under its own surface and buffer; no
      reference is used after its release or released twice, and no surface is destroyed twice. */
  lemma SameReferences(steps: seq<Step>)
    requires OrderlyRun(OPENED, steps) && Run(OPENED, steps).Some?
    ensures var s := Run(OPENED, steps).value;
      && s.surfaces.Values == s.active.Values && !s.bad
      && (forall p :: p in s.surfaces.Values <==> p in s.heap && Mapped(s.heap[p].phase))
  {
    Opened();
    RunKeeps(OPENED, steps);
    var s := Run(OPENED, steps).value;
    InverseValues(MappedSurfaces(s.heap), s.surfaces);
    InverseValues(MappedBuffers(s.heap), s.active);
    hide Inverse;
    assert MappedSurfaces(s.heap).Keys == MappedBuffers(s.heap).Keys;
  }

  lemma InverseValues(keys: map<Pointer, nat>, m: map<nat, Pointer>)
    requires Inverse(keys, m)
    ensures m.Values == keys.Keys
  {
    forall p | p in keys ensures p in m.Values {
      assert m[keys[p]] == p;
    }
  }

  /** A block on its way to the decoder has the requested size, and until it is published no
      reference of the decoder uses its buffer. Two frames never share a buffer. */
  lemma BuffersExclusive(steps: seq<Step>, p: Pointer, q: Pointer)
    requires OrderlyRun(OPENED, steps) && Run(OPENED, steps).Some?
    ensures var s := Run(OPENED, steps).value;
      && (s.pc.Acquired? ==>
            s.pc.block.width == s.pc.width && s.pc.block.height == s.pc.height && s.pc.block.bufferId !in s.active)
      && (s.pc.Surfaced? ==> s.pc.bufferId !in s.active)
      && (Is(s, p, Framed) && Is(s, q, Framed) && p != q ==>
            s.heap[p].bufferId != s.heap[q].bufferId && s.heap[p].surface != s.heap[q].surface)
  {
    Opened();
    RunKeeps(OPENED, steps);
    var s := Run(OPENED, steps).value;
    KeysOf(s.heap, p);
    KeysOf(s.heap, q);
    hide MappedSurfaces, MappedBuffers, LiveSurfaces, Run, OrderlyRun;
  }

  /** What a `Reset` needs, whatever releases are under way. With a frame still out, the consumer's last
      reference to it uses freed memory; with a callback that has not entered its critical section, the
      reference is released twice; without either, nothing that follows can go wrong. */
  lemma ResetExact(s: State)
    requires Inv(s) && s.pc.Idle?
    ensures (forall steps :: SafeAfter(AfterReset(s), steps)) <==> (forall p :: !Is(s, p, Framed) && !Is(s, p, Called))
  {
    if p :| Is(s, p, Framed) {
      FrameOutlives(s, p);
    } else if p :| Is(s, p, Called) {
      CallbackWaits(s, p);
    } else {
      assert forall p :: p in s.heap ==> !Is(s, p, Framed) && !Is(s, p, Called);
      ResetKeeps(s);
      hide Inv, AfterReset, Run, OrderlyRun;
      forall steps ensures SafeAfter(AfterReset(s), steps) {
        if OrderlyRun(AfterReset(s), steps) && Run(AfterReset(s), steps).Some? {
          RunKeeps(AfterReset(s), steps);
        }
      }
    }
  }

  lemma StillIndexed(s: State, p: Pointer)
    requires Inv(s) && p in s.heap && Mapped(s.heap[p].phase)
    ensures p in s.surfaces.Values
  {
    KeysOf(s.heap, p);
    InverseValues(MappedSurfaces(s.heap), s.surfaces);
  }

  lemma CallbackWaits(s: State, p: Pointer)
    requires Inv(s) && Is(s, p, Called)
    ensures !SafeAfter(AfterReset(s), [])
  {
    StillIndexed(s, p);
    hide Inv;
    assert AfterReset(s).bad;
    hide AfterReset, Orderly;
    assert Run(AfterReset(s), []) == Some(AfterReset(s)) && OrderlyRun(AfterReset(s), []);
  }

  predicate SafeAfter(s: State, steps: seq<Step>) {
    OrderlyRun(s, steps) && Run(s, steps).Some? ==> !Run(s, steps).value.bad
  }

  lemma ResetDangles(s: State, p: Pointer)
    requires Inv(s) && Is(s, p, Framed)
    ensures p in AfterReset(s).dangling && !Is(AfterReset(s), p, Framed)
  {
    StillIndexed(s, p);
    hide Inv;
  }

  lemma FrameOutlives(s: State, p: Pointer)
    requires Inv(s) && Is(s, p, Framed)
    ensures !SafeAfter(AfterReset(s), [DropFrame(p)])
  {
    hide Inv, Is, AfterReset;
    ResetDangles(s, p);
    var t := AfterReset(s);
    var u := t.(dangling := t.dangling - {p}, bad := true);
    assert Apply(t, DropFrame(p)) == Some(u);
    var steps := [DropFrame(p)];
    assert steps[0] == DropFrame(p) && steps[1..] == [];
    assert Run(u, []) == Some(u) && OrderlyRun(u, []);
    assert Run(t, steps) == Run(u, steps[1..]) && OrderlyRun(t, steps);
  }
}
