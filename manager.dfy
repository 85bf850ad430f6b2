/** Model of the conversion-request registry in `src/lib.rs`:
    `EquirectManager::load_equirect_as_cubemap` and the `apply_equirect`
    system that reacts to image asset events.

    Asset handles are opaque ids; the image handle provider is a counter of
    the next id it reserves; the image asset store is a map from id to image;
    `AssetServer::load` is the source id it returns, given as a parameter. */
module Manager {
  import opened Convert
  import opened Cubemap

  /** `AssetId<Image>`: only equality matters. */
  type AssetId = nat

  /** `EquirectCubemap`: one pending conversion. */
  datatype EquirectCubemap = EquirectCubemap(src: AssetId, dst: AssetId, res: nat)

  /** `AssetEvent<Image>`, all five kinds; only the first three matter here. */
  datatype AssetEvent =
    | Added(id: AssetId)
    | Unused(id: AssetId)
    | Removed(id: AssetId)
    | Modified(id: AssetId)
    | LoadedWithDependencies(id: AssetId)

  type Handles = map<AssetId, EquirectCubemap>

  /** Every entry of `small` is in `big` with the same value. */
  predicate Submap(small: Handles, big: Handles) {
    forall id :: id in small ==> id in big && big[id] == small[id]
  }

  /** Entries are keyed by their source id, and no two share a destination. */
  predicate HandlesValid(handles: Handles) {
    && (forall id :: id in handles ==> handles[id].src == id)
    && (forall a, b :: a in handles && b in handles && handles[a].dst == handles[b].dst ==> a == b)
  }

  // ---------------------------------------------------------------------
  // Registration

  /** The manager's registration state: its map and the next id the handle
      provider will reserve. */
  datatype Registry = Registry(handles: Handles, nextHandle: AssetId)

  /** Every reserved destination id is below the provider's counter. */
  predicate RegistryValid(r: Registry) {
    && HandlesValid(r.handles)
    && forall id :: id in r.handles ==> r.handles[id].dst < r.nextHandle
  }

  datatype Registered = Registered(registry: Registry, dst: AssetId)

  /** `load_equirect_as_cubemap` with `entry().or_insert_with`: an untracked
      source gets an entry with a freshly reserved destination; a tracked one
      keeps its entry, and no handle is reserved. */
  function Load(r: Registry, src: AssetId, res: nat): (l: Registered)
    ensures src in l.registry.handles && l.registry.handles[src].dst == l.dst
  {
    if src in r.handles then Registered(r, r.handles[src].dst)
    else Registered(Registry(r.handles[src := EquirectCubemap(src, r.nextHandle, res)], r.nextHandle + 1),
                    r.nextHandle)
  }

  /** After a load the source is tracked, the returned id is its destination,
      and every earlier entry is untouched. */
  lemma LoadTracks(r: Registry, src: AssetId, res: nat)
    ensures var l := Load(r, src, res);
            src in l.registry.handles && l.registry.handles[src].dst == l.dst &&
            Submap(r.handles, l.registry.handles) &&
            l.registry.handles.Keys == r.handles.Keys + {src}
  {
  }

  /** Loading a tracked source changes nothing, reserves nothing and returns
      the existing destination; its first resolution wins. */
  lemma LoadFirstWins(r: Registry, src: AssetId, res: nat)
    requires src in r.handles
    ensures Load(r, src, res) == Registered(r, r.handles[src].dst)
    ensures Load(r, src, res).registry.handles[src].res == r.handles[src].res
  {
  }

  /** Loading an untracked source reserves exactly one handle, and it is
      distinct from every destination in use. */
  lemma LoadFresh(r: Registry, src: AssetId, res: nat)
    requires RegistryValid(r) && src !in r.handles
    ensures Load(r, src, res).registry.nextHandle == r.nextHandle + 1
    ensures Load(r, src, res).registry.handles[src] == EquirectCubemap(src, Load(r, src, res).dst, res)
    ensures forall id :: id in r.handles ==> r.handles[id].dst != Load(r, src, res).dst
  {
  }

  lemma LoadPreservesValid(r: Registry, src: AssetId, res: nat)
    requires RegistryValid(r)
    ensures RegistryValid(Load(r, src, res).registry)
  {
    var r' := Load(r, src, res).registry;
    if src !in r.handles {
      forall a, b | a in r'.handles && b in r'.handles && r'.handles[a].dst == r'.handles[b].dst
        ensures a == b
      {
        if a != src && b != src {
          assert r'.handles[a] == r.handles[a] && r'.handles[b] == r.handles[b];
        }
      }
    }
  }

  datatype Request = Request(src: AssetId, res: nat)

  datatype RegisteredAll = RegisteredAll(registry: Registry, dsts: seq<AssetId>)

  /** A sequence of `load_equirect_as_cubemap` calls, in order. */
  function LoadAll(r: Registry, requests: seq<Request>): (l: RegisteredAll)
    ensures |l.dsts| == |requests|
    decreases |requests|
  {
    if requests == [] then RegisteredAll(r, [])
    else
      var first := Load(r, requests[0].src, requests[0].res);
      var rest := LoadAll(first.registry, requests[1..]);
      RegisteredAll(rest.registry, [first.dst] + rest.dsts)
  }

  /** After a sequence of loads every requested source is tracked with the
      destination its call returned, earlier entries survive, and the
      registry stays valid. */
  lemma {:induction false} LoadAllTracks(r: Registry, requests: seq<Request>)
    requires RegistryValid(r)
    ensures var l := LoadAll(r, requests);
            && RegistryValid(l.registry)
            && Submap(r.handles, l.registry.handles)
            && forall i :: 0 <= i < |requests| ==>
                 requests[i].src in l.registry.handles && l.dsts[i] == l.registry.handles[requests[i].src].dst
    decreases |requests|
  {
    if requests != [] {
      var first := Load(r, requests[0].src, requests[0].res);
      LoadTracks(r, requests[0].src, requests[0].res);
      LoadPreservesValid(r, requests[0].src, requests[0].res);
      LoadAllTracks(first.registry, requests[1..]);
      var l := LoadAll(r, requests);
      forall i | 0 <= i < |requests|
        ensures requests[i].src in l.registry.handles && l.dsts[i] == l.registry.handles[requests[i].src].dst
      {
        if i > 0 {
          assert requests[i] == requests[1..][i - 1];
        }
      }
    }
  }

  /** Two calls in a sequence of loads return the same destination exactly
      when they name the same source: repeats share one conversion, distinct
      sources never share a destination. */
  lemma SameDstIffSameSource(r: Registry, requests: seq<Request>, i: nat, j: nat)
    requires RegistryValid(r)
    requires i < |requests| && j < |requests|
    ensures LoadAll(r, requests).dsts[i] == LoadAll(r, requests).dsts[j] <==> requests[i].src == requests[j].src
  {
    LoadAllTracks(r, requests);
  }

  // ---------------------------------------------------------------------
  // Event handling

  /** The state `apply_equirect` works on: the manager's map and the image
      asset store. */
  datatype World = World(handles: Handles, images: map<AssetId, Image>)

  /** An `Added` event for a tracked id needs its source image present (the
      source unwraps the lookup) and convertible. */
  predicate StepDefined(w: World, event: AssetEvent, sample: Sampler) {
    event.Added? && event.id in w.handles ==>
      && w.handles[event.id].src in w.images
      && Convertible(w.images[w.handles[event.id].src], w.handles[event.id].res, sample)
  }

  /** One iteration of `apply_equirect`'s loop. */
  function Step(w: World, event: AssetEvent, sample: Sampler): (w': World)
    requires StepDefined(w, event, sample)
    ensures Submap(w'.handles, w.handles)
    ensures w.images.Keys <= w'.images.Keys
  {
    var images :=
      if event.Added? && event.id in w.handles then
        var cubemap := w.handles[event.id];
        w.images[cubemap.dst := CubemapImage(w.images[cubemap.src], cubemap.res, sample)]
      else w.images;
    var handles := if event.Unused? || event.Removed? then w.handles - {event.id} else w.handles;
    World(handles, images)
  }

  /** No iteration over `events`, starting from `w`, panics. */
  predicate CanApply(w: World, events: seq<AssetEvent>, sample: Sampler)
    decreases |events|
  {
    events == [] ||
    (StepDefined(w, events[0], sample) && CanApply(Step(w, events[0], sample), events[1..], sample))
  }

  /** `apply_equirect` over a batch of events. */
  function ApplyAll(w: World, events: seq<AssetEvent>, sample: Sampler): (w': World)
    requires CanApply(w, events, sample)
    ensures w.images.Keys <= w'.images.Keys
    decreases |events|
  {
    if events == [] then w else ApplyAll(Step(w, events[0], sample), events[1..], sample)
  }

  /** `Added` for a tracked id publishes the conversion of its source at its
      destination and keeps the entry; for an untracked id it does nothing. */
  lemma AddedPublishes(w: World, id: AssetId, sample: Sampler)
    requires StepDefined(w, Added(id), sample)
    ensures Step(w, Added(id), sample).handles == w.handles
    ensures id in w.handles ==>
              var c := w.handles[id];
              && c.dst in Step(w, Added(id), sample).images
              && Step(w, Added(id), sample).images[c.dst] == CubemapImage(w.images[c.src], c.res, sample)
              && forall k :: k != c.dst ==> SameAt(Step(w, Added(id), sample).images, w.images, k)
    ensures id !in w.handles ==> Step(w, Added(id), sample) == w
  {
  }

  /** `m` and `m'` agree at key `k`: both lack it, or both map it alike. */
  predicate SameAt(m: map<AssetId, Image>, m': map<AssetId, Image>, k: AssetId) {
    (k in m <==> k in m') && (k in m ==> m[k] == m'[k])
  }

  /** `Unused` and `Removed` drop exactly that id and nothing else. */
  lemma RemovalDropsEntry(w: World, event: AssetEvent, sample: Sampler)
    requires event.Unused? || event.Removed?
    ensures StepDefined(w, event, sample)
    ensures event.id !in Step(w, event, sample).handles
    ensures Step(w, event, sample).handles.Keys == w.handles.Keys - {event.id}
    ensures Submap(Step(w, event, sample).handles, w.handles)
    ensures Step(w, event, sample).images == w.images
  {
  }

  /** Events never add entries or change them: the map only shrinks. */
  lemma {:induction false} ApplyAllShrinks(w: World, events: seq<AssetEvent>, sample: Sampler)
    requires CanApply(w, events, sample)
    ensures Submap(ApplyAll(w, events, sample).handles, w.handles)
    ensures HandlesValid(w.handles) ==> HandlesValid(ApplyAll(w, events, sample).handles)
    decreases |events|
  {
    if events != [] {
      ApplyAllShrinks(Step(w, events[0], sample), events[1..], sample);
    }
  }

  /** Event handling writes images only at destinations of entries tracked
      when it starts. */
  lemma {:induction false} ApplyAllWritesOnlyTrackedDsts(w: World, events: seq<AssetEvent>, sample: Sampler, k: AssetId)
    requires CanApply(w, events, sample)
    requires forall id :: id in w.handles ==> w.handles[id].dst != k
    ensures SameAt(ApplyAll(w, events, sample).images, w.images, k)
    decreases |events|
  {
    if events != [] {
      var w' := Step(w, events[0], sample);
      ApplyAllWritesOnlyTrackedDsts(w', events[1..], sample, k);
    }
  }

  /** Cancellation: once `Unused` or `Removed` drops an entry, no later event
      of the batch publishes anything at its destination, a later `Added`
      for the same id included. */
  lemma CancelledPublishesNothing(w: World, event: AssetEvent, rest: seq<AssetEvent>, sample: Sampler)
    requires HandlesValid(w.handles)
    requires (event.Unused? || event.Removed?) && event.id in w.handles
    requires CanApply(w, [event] + rest, sample)
    ensures SameAt(ApplyAll(w, [event] + rest, sample).images, w.images, w.handles[event.id].dst)
  {
    var events := [event] + rest;
    var w' := Step(w, event, sample);
    assert events[1..] == rest;
    ApplyAllWritesOnlyTrackedDsts(w', rest, sample, w.handles[event.id].dst);
  }

  // ---------------------------------------------------------------------
  // The manager resource and the system

  /** `EquirectManager`: the map of pending conversions, and the counter that
      stands for its image handle provider. */
  class EquirectManager {
    var handles: Handles
    var nextHandle: AssetId

    ghost predicate Valid()
      reads this
    {
      RegistryValid(Registry(handles, nextHandle))
    }

    /** `from_world`: an empty map and a provider whose next id is given. */
    constructor (firstHandle: AssetId)
      ensures Valid()
      ensures handles == map[] && nextHandle == firstHandle
    {
      handles := map[];
      nextHandle := firstHandle;
    }

    /** `AssetHandleProvider::reserve_handle`. */
    method ReserveHandle() returns (id: AssetId)
      modifies this`nextHandle
      ensures id == old(nextHandle) && nextHandle == old(nextHandle) + 1
    {
      id := nextHandle;
      nextHandle := nextHandle + 1;
    }

    /** `load_equirect_as_cubemap`, for the source id `src` that
        `AssetServer::load` returns for the path. */
    method LoadEquirectAsCubemap(src: AssetId, res: nat) returns (dst: AssetId)
      requires Valid()
      modifies this
      ensures Valid()
      ensures Registered(Registry(handles, nextHandle), dst) == Load(old(Registry(handles, nextHandle)), src, res)
    {
      LoadPreservesValid(Registry(handles, nextHandle), src, res);
      if src !in handles {
        var reserved := ReserveHandle();
        handles := handles[src := EquirectCubemap(src, reserved, res)];
      }
      dst := handles[src].dst;
    }
  }

  /** `apply_equirect`: handle each event of the batch in order, converting
      and publishing on `Added`, dropping the entry on `Unused`/`Removed`. */
  method ApplyEquirect(images: map<AssetId, Image>, manager: EquirectManager, events: seq<AssetEvent>,
                       sample: Sampler) returns (images': map<AssetId, Image>)
    requires CanApply(World(manager.handles, images), events, sample)
    modifies manager`handles
    ensures World(manager.handles, images') == ApplyAll(World(old(manager.handles), images), events, sample)
    ensures old(manager.Valid()) ==> manager.Valid()
  {
    images' := images;
    for i := 0 to |events|
      invariant CanApply(World(manager.handles, images'), events[i..], sample)
      invariant ApplyAll(World(manager.handles, images'), events[i..], sample) ==
                ApplyAll(World(old(manager.handles), images), events, sample)
    {
      var event := events[i];
      assert events[i..][1..] == events[i + 1..];
      if event.Added? && event.id in manager.handles {
        var cubemap := manager.handles[event.id];
        var image := CubemapFromEquirectangular(images'[cubemap.src], cubemap.res, sample);
        images' := images'[cubemap.dst := image];
      }
      if event.Unused? || event.Removed? {
        manager.handles := manager.handles - {event.id};
      }
    }
    ApplyAllShrinks(World(old(manager.handles), images), events, sample);
  }
}
