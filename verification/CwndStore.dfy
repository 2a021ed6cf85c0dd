/**
 The shared register through which a probe hands congestion windows to the kernel module:
 a published map with reference counts, written by probes and read by every flow.
 */
module CwndStore {
  import opened Words

  type Fd = nat
  type MapId = nat

  /** A live kernel map: how often it is referenced, and what key 0 holds (None for a map without that key). */
  datatype BpfMap = BpfMap(refs: nat, slot: Option<u32>)

  /** `gets` and `puts` count the references that the module itself has taken and dropped. */
  datatype Store = Store(
    published: Option<MapId>,
    maps: map<MapId, BpfMap>,
    handles: map<Fd, MapId>,
    gets: nat,
    puts: nat)

  const EmptyStore := Store(None, map[], map[], 0, 0)

  datatype Action =
    | Open(fd: Fd, id: MapId, isArray: bool)  // a process opens a handle, on a new map or a live one
    | CloseFd(fd: Fd)
    | Register(data: Option<Fd>)                     // None: the descriptor could not be copied from the caller
    | Unregister
    | OtherCommand
    | Destroy                                        // module unload
    | ProbeWrite(fd: Fd, value: u32)                 // the probe of some flow stores its decision
    | Lookup                                         // some flow reads the published decision

  /** A new array map holds 0 under key 0; other maps hold nothing there yet. */
  function Initial(isArray: bool): Option<u32> {
    if isArray then Some(0) else None
  }

  datatype IoctlResult = Done | InvalidArgument | BadDescriptor

  // ---------- specification ----------

  /** bpf_map_get: one more reference. */
  function Get(maps: map<MapId, BpfMap>, id: MapId): map<MapId, BpfMap>
    requires id in maps
  {
    maps[id := maps[id].(refs := maps[id].refs + 1)]
  }

  /** bpf_map_put: one reference less; the last one frees the map. */
  function Put(maps: map<MapId, BpfMap>, id: MapId): map<MapId, BpfMap>
    requires id in maps && maps[id].refs > 0
  {
    if maps[id].refs == 1 then maps - {id} else maps[id := maps[id].(refs := maps[id].refs - 1)]
  }

  /** The handles open on `id`. */
  function Holders(handles: map<Fd, MapId>, id: MapId): set<Fd> {
    set fd | fd in handles && handles[fd] == id
  }

  function One(b: bool): nat {
    if b then 1 else 0
  }

  /** References are exactly the open handles plus the module's one on what it has published. */
  ghost predicate Counted(s: Store) {
    && (forall id :: id in s.maps ==>
          s.maps[id].refs > 0 && s.maps[id].refs == |Holders(s.handles, id)| + One(s.published == Some(id)))
    && (forall fd :: fd in s.handles ==> s.handles[fd] in s.maps)
    && (s.published.Some? ==> s.published.value in s.maps)
    && s.gets == s.puts + One(s.published.Some?)
  }

  lemma {:induction false} EmptyIsCounted()
    ensures Counted(EmptyStore)
  {
  }

  /** Drop what is published, if anything. */
  ghost function Unpublished(s: Store): Store
    requires Counted(s)
  {
    if s.published.None? then s
    else s.(published := None, maps := Put(s.maps, s.published.value), puts := s.puts + 1)
  }

  /** Publish the map behind `fd`; the reference on it is taken before the old one is dropped. */
  ghost function Published(s: Store, fd: Fd): Store
    requires Counted(s) && fd in s.handles
  {
    var id := s.handles[fd];
    var maps := Get(s.maps, id);
    if s.published.None? then s.(published := Some(id), maps := maps, gets := s.gets + 1)
    else s.(published := Some(id), maps := Put(maps, s.published.value), gets := s.gets + 1, puts := s.puts + 1)
  }

  ghost function Step(s: Store, a: Action): Store
    requires Counted(s)
  {
    match a
    case Open(fd, id, isArray) =>
      if fd in s.handles then s
      else if id in s.maps then s.(maps := Get(s.maps, id), handles := s.handles[fd := id])
      else s.(maps := s.maps[id := BpfMap(1, Initial(isArray))], handles := s.handles[fd := id])
    case CloseFd(fd) =>
      if fd !in s.handles then s
      else HolderPositive(s, fd); s.(maps := Put(s.maps, s.handles[fd]), handles := s.handles - {fd})
    case Register(Some(fd)) => if fd in s.handles then Published(s, fd) else s
    case Register(None) => s
    case Unregister => Unpublished(s)
    case OtherCommand => s
    case Destroy => Unpublished(s)
    case ProbeWrite(fd, value) =>
      if fd !in s.handles then s
      else var id := s.handles[fd]; s.(maps := s.maps[id := s.maps[id].(slot := Some(value))])
    case Lookup => s
  }

  lemma {:induction false} HolderPositive(s: Store, fd: Fd)
    requires Counted(s) && fd in s.handles
    ensures s.handles[fd] in s.maps && s.maps[s.handles[fd]].refs > 0
    ensures |Holders(s.handles, s.handles[fd])| > 0
  {
    assert fd in Holders(s.handles, s.handles[fd]);
  }

  lemma {:induction false} HoldersAdd(handles: map<Fd, MapId>, fd: Fd, id: MapId, other: MapId)
    requires fd !in handles
    ensures |Holders(handles[fd := id], other)| == |Holders(handles, other)| + One(id == other)
  {
    assert Holders(handles[fd := id], other) == Holders(handles, other) + (if id == other then {fd} else {});
  }

  lemma {:induction false} HoldersRemove(handles: map<Fd, MapId>, fd: Fd, other: MapId)
    requires fd in handles
    ensures |Holders(handles - {fd}, other)| == |Holders(handles, other)| - One(handles[fd] == other)
  {
    assert Holders(handles - {fd}, other) == Holders(handles, other) - {fd};
    if handles[fd] == other {
      assert fd in Holders(handles, other);
    }
  }

  lemma {:induction false} OpenKeepsCounted(s: Store, fd: Fd, id: MapId, isArray: bool)
    requires Counted(s)
    ensures Counted(Step(s, Open(fd, id, isArray)))
  {
    if fd !in s.handles {
      forall other ensures |Holders(s.handles[fd := id], other)| == |Holders(s.handles, other)| + One(id == other) {
        HoldersAdd(s.handles, fd, id, other);
      }
      if id !in s.maps {
        assert Holders(s.handles, id) == {};
      }
    }
  }

  lemma {:induction false} CloseKeepsCounted(s: Store, fd: Fd)
    requires Counted(s)
    ensures Counted(Step(s, CloseFd(fd)))
  {
    if fd in s.handles {
      HolderPositive(s, fd);
      var id := s.handles[fd];
      forall other ensures |Holders(s.handles - {fd}, other)| == |Holders(s.handles, other)| - One(id == other) {
        HoldersRemove(s.handles, fd, other);
      }
      if s.maps[id].refs == 1 {
        assert |Holders(s.handles - {fd}, id)| == 0;
        assert forall g :: g in s.handles - {fd} && (s.handles - {fd})[g] == id ==> g in Holders(s.handles - {fd}, id);
      }
    }
  }

  lemma {:induction false} UnpublishKeepsCounted(s: Store)
    requires Counted(s)
    ensures Counted(Unpublished(s))
  {
    if s.published.Some? && s.maps[s.published.value].refs == 1 {
      var id := s.published.value;
      assert |Holders(s.handles, id)| == 0;
      assert forall g :: g in s.handles && s.handles[g] == id ==> g in Holders(s.handles, id);
    }
  }

  lemma {:induction false} PublishKeepsCounted(s: Store, fd: Fd)
    requires Counted(s) && fd in s.handles
    ensures Counted(Published(s, fd))
  {
    HolderPositive(s, fd);
    if s.published.Some? {
      var id := s.published.value;
      assert |Holders(s.handles, id)| == 0 ==> forall g :: g in s.handles ==> s.handles[g] != id by {
        assert forall g :: g in s.handles && s.handles[g] == id ==> g in Holders(s.handles, id);
      }
    }
  }

  /** The reference taken is on a live map, and so is the one dropped afterwards. */
  lemma {:induction false} PublishIsSafe(s: Store, fd: Fd)
    requires Counted(s) && fd in s.handles
    ensures s.handles[fd] in s.maps
    ensures s.published.Some? ==>
              s.published.value in s.maps && Get(s.maps, s.handles[fd])[s.published.value].refs > 0
  {
  }

  /** Whatever happens, references stay exactly counted; so a published map is never freed. */
  lemma {:induction false} StepKeepsCounted(s: Store, a: Action)
    requires Counted(s)
    ensures Counted(Step(s, a))
  {
    match a
    case Open(fd, id, isArray) => OpenKeepsCounted(s, fd, id, isArray);
    case CloseFd(fd) => CloseKeepsCounted(s, fd);
    case Register(Some(fd)) => if fd in s.handles { PublishKeepsCounted(s, fd); }
    case Unregister => UnpublishKeepsCounted(s);
    case Destroy => UnpublishKeepsCounted(s);
    case _ =>
  }

  /** Registering publishes the descriptor's map, which then carries one more reference than it has handles. */
  lemma {:induction false} RegisterPublishes(s: Store, fd: Fd)
    requires Counted(s) && fd in s.handles
    ensures var r, id := Step(s, Register(Some(fd))), s.handles[fd];
            && r.published == Some(id) && r.handles == s.handles
            && id in r.maps && r.maps[id].refs == |Holders(s.handles, id)| + 1
            && r.maps[id].slot == s.maps[id].slot
  {
    PublishKeepsCounted(s, fd);
    HolderPositive(s, fd);
  }

  /** Registering the published map again leaves every reference count as it was. */
  lemma {:induction false} ReRegisterIsNeutral(s: Store, fd: Fd)
    requires Counted(s) && fd in s.handles && s.published == Some(s.handles[fd])
    ensures Step(s, Register(Some(fd))) == s.(gets := s.gets + 1, puts := s.puts + 1)
  {
  }

  /** Unregistering undoes a registration: the maps are those of a store in which nothing had been published instead. */
  lemma {:induction false} UnregisterUndoesRegister(s: Store, fd: Fd)
    requires Counted(s) && fd in s.handles
    ensures Counted(Step(s, Register(Some(fd))))
    ensures var r := Step(Step(s, Register(Some(fd))), Unregister);
            r.published == None && r.handles == s.handles && r.maps == Step(s, Unregister).maps
  {
    PublishKeepsCounted(s, fd);
    HolderPositive(s, fd);
    var id := s.handles[fd];
    if s.published.Some? && s.published.value != id {
      var other := s.published.value;
      assert Put(Put(Get(s.maps, id), other), id) == Put(s.maps, other);
    }
  }

  /** Unregistering and unloading drop the module's reference and nothing else; only maps that no handle holds go with it. */
  lemma {:induction false} ReleaseDropsOne(s: Store, a: Action)
    requires Counted(s) && (a.Unregister? || a.Destroy?)
    ensures Counted(Step(s, a))
    ensures var r := Step(s, a);
            && r.published == None && r.handles == s.handles
            && (forall id :: id in r.maps <==> id in s.maps && Holders(s.handles, id) != {})
            && (forall id :: id in r.maps ==> r.maps[id] == BpfMap(|Holders(s.handles, id)|, s.maps[id].slot))
  {
    UnpublishKeepsCounted(s);
    var r := Step(s, a);
    forall id ensures id in r.maps <==> id in s.maps && Holders(s.handles, id) != {} {
      if Holders(s.handles, id) != {} {
        var fd :| fd in Holders(s.handles, id);
        assert s.handles[fd] == id;
      }
    }
  }

  /** Anything that names no open handle, or asks for nothing known, changes nothing. */
  lemma {:induction false} NothingHappens(s: Store, a: Action)
    requires Counted(s)
    requires match a
             case Register(None) | OtherCommand | Lookup => true
             case Register(Some(fd)) => fd !in s.handles
             case ProbeWrite(fd, _) => fd !in s.handles
             case CloseFd(fd) => fd !in s.handles
             case _ => false
    ensures Step(s, a) == s
  {
  }

  /** Only opening and closing change the handles. */
  lemma {:induction false} HandlesFollow(s: Store, a: Action, fd: Fd)
    requires Counted(s)
    ensures fd in Step(s, a).handles <==> (fd in s.handles && a != CloseFd(fd)) || (a.Open? && a.fd == fd)
    ensures fd in Step(s, a).handles ==>
              Step(s, a).handles[fd] == if fd in s.handles then s.handles[fd] else a.id
  {
  }

  /** A map is alive exactly as long as somebody holds it; only its last reference frees it. */
  lemma {:induction false} FreedOnlyWhenUnused(s: Store, a: Action, id: MapId)
    requires Counted(s) && id in s.maps
    ensures Counted(Step(s, a))
    ensures id in Step(s, a).maps <==> Holders(Step(s, a).handles, id) != {} || Step(s, a).published == Some(id)
  {
    StepKeepsCounted(s, a);
    var r := Step(s, a);
    if Holders(r.handles, id) != {} {
      var fd :| fd in Holders(r.handles, id);
      assert r.handles[fd] == id;
    }
  }

  // ---------- whole runs ----------

  ghost function Run(acts: seq<Action>): (s: Store)
    ensures Counted(s)
  {
    if acts == [] then EmptyStore else
    var s := Run(acts[..|acts| - 1]);
    StepKeepsCounted(s, acts[|acts| - 1]);
    Step(s, acts[|acts| - 1])
  }

  /** `a` gives key 0 of map `id` a value: it creates the map, or a probe writes to it. */
  ghost predicate Sets(s: Store, a: Action, id: MapId) {
    match a
    case Open(fd, target, _) => fd !in s.handles && target == id && id !in s.maps
    case ProbeWrite(fd, _) => fd in s.handles && s.handles[fd] == id
    case _ => false
  }

  function ValueSet(a: Action): Option<u32>
    requires a.Open? || a.ProbeWrite?
  {
    match a
    case Open(_, _, isArray) => if isArray then Some(0) else None
    case ProbeWrite(_, value) => Some(value)
  }

  /** What the newest action that set map `id` put there. */
  ghost function NewestValue(acts: seq<Action>, id: MapId): Option<u32> {
    if acts == [] then None else
    var before, a := acts[..|acts| - 1], acts[|acts| - 1];
    if Sets(Run(before), a, id) then ValueSet(a) else NewestValue(before, id)
  }

  lemma {:induction false} StepFrame(s: Store, a: Action, id: MapId)
    requires Counted(s) && id in Step(s, a).maps
    ensures Sets(s, a, id) ==> Step(s, a).maps[id].slot == ValueSet(a)
    ensures !Sets(s, a, id) ==> id in s.maps && Step(s, a).maps[id].slot == s.maps[id].slot
  {
  }

  /** A live map holds what its newest setter put there, no matter which flow that was. */
  lemma {:induction false} SlotIsNewestValue(acts: seq<Action>, id: MapId)
    requires id in Run(acts).maps
    ensures Run(acts).maps[id].slot == NewestValue(acts, id)
  {
    var n := |acts| - 1;
    StepFrame(Run(acts[..n]), acts[n], id);
    if !Sets(Run(acts[..n]), acts[n], id) {
      SlotIsNewestValue(acts[..n], id);
    }
  }

  /** Any value other than the initial 0 was written by a probe. */
  lemma {:induction false} ValueHasWriter(acts: seq<Action>, id: MapId) returns (i: nat)
    requires NewestValue(acts, id).Some? && NewestValue(acts, id).value != 0
    ensures i < |acts| && Sets(Run(acts[..i]), acts[i], id)
    ensures acts[i].ProbeWrite? && Some(acts[i].value) == NewestValue(acts, id)
  {
    hide Run, Counted;
    var n := |acts| - 1;
    if Sets(Run(acts[..n]), acts[n], id) {
      i := n;
    } else {
      i := ValueHasWriter(acts[..n], id);
      assert acts[..n][..i] == acts[..i];
    }
  }

  /** lookup_cwnd */
  ghost function LookupValue(s: Store): Option<u32>
    requires Counted(s)
  {
    if s.published.None? then None else s.maps[s.published.value].slot
  }

  /** cong_control_logic: the published value, or 2. */
  ghost function Decision(s: Store): u32
    requires Counted(s)
  {
    match LookupValue(s)
    case None => 2
    case Some(v) => v
  }

  /** What flows read: the value under key 0 of what is published, or 2 when there is none. */
  lemma {:induction false} DecisionMeaning(s: Store)
    requires Counted(s)
    ensures match s.published
            case None => Decision(s) == 2
            case Some(id) => id in s.maps && Decision(s) == if s.maps[id].slot == None then 2 else s.maps[id].slot.value
  {
  }

  /** clamp(cwnd, 2U, limit) of Linux 6.8. */
  function ClampCwnd(cwnd: u32, limit: u32): u32 {
    if cwnd >= limit then limit else if cwnd <= 2 then 2 else cwnd
  }

  function Distance(a: u32, b: u32): nat {
    if a <= b then b - a else a - b
  }

  /** Of the windows from 2 to `limit`, `window` is nearest to the decision. */
  ghost predicate Nearest(window: u32, decision: u32, limit: u32) {
    2 <= window <= limit && forall x: u32 :: 2 <= x <= limit ==> Distance(window, decision) <= Distance(x, decision)
  }

  /**
   A clamped decision is the nearest usable window, which exists exactly when the socket's limit leaves room for
   one; below that a decision is raised to 2 or cut to the limit.
   */
  lemma {:induction false} ClampedIsUsable(cwnd: u32, limit: u32)
    ensures Nearest(ClampCwnd(cwnd, limit), cwnd, limit) <==> 2 <= limit
    ensures 2 <= cwnd <= limit ==> ClampCwnd(cwnd, limit) == cwnd
    ensures limit < 2 ==> ClampCwnd(cwnd, limit) == if cwnd < limit then 2 else limit
  {
  }

  lemma {:induction false} NearestUnique(a: u32, b: u32, decision: u32, limit: u32)
    requires Nearest(a, decision, limit) && Nearest(b, decision, limit)
    ensures a == b
  {
    assert Distance(a, decision) == Distance(b, decision);
    if 2 <= decision <= limit {
      assert Distance(a, decision) <= Distance(decision, decision);
    }
  }

  /** Some probe wrote `value` to map `id` during the run. */
  ghost predicate WrittenByProbe(acts: seq<Action>, id: MapId, value: u32) {
    exists i: nat :: i < |acts| && Sets(Run(acts[..i]), acts[i], id) && acts[i].ProbeWrite? && acts[i].value == value
  }

  /**
   After any interleaving of ioctls, handles and probes a flow decides for the newest value of the published map,
   which is its initial 0 or was written by some probe, and for 2 if there is none; it applies the usable window
   nearest to that.
   */
  lemma {:induction false} AppliedWindow(acts: seq<Action>, limit: u32)
    requires limit >= 2
    ensures var s, d := Run(acts), Decision(Run(acts));
            && Nearest(ClampCwnd(d, limit), d, limit)
            && match s.published
               case None => d == 2
               case Some(id) =>
                 match NewestValue(acts, id)
                 case None => d == 2
                 case Some(v) => d == v && (v == 0 || WrittenByProbe(acts, id, v))
  {
    hide Run, Sets, ClampCwnd, Nearest;
    var s := Run(acts);
    ClampedIsUsable(Decision(s), limit);
    if s.published.Some? {
      SlotIsNewestValue(acts, s.published.value);
      if NewestValue(acts, s.published.value).Some? && NewestValue(acts, s.published.value).value != 0 {
        var i := ValueHasWriter(acts, s.published.value);
      }
    }
  }

  ghost function RunFrom(s: Store, acts: seq<Action>): (r: Store)
    requires Counted(s)
    ensures Counted(r)
  {
    if acts == [] then s else
    var r := RunFrom(s, acts[..|acts| - 1]);
    StepKeepsCounted(r, acts[|acts| - 1]);
    Step(r, acts[|acts| - 1])
  }

  /** Action `i` of `acts`, run from `s`, is a probe's write to map `id`. */
  ghost predicate WritesAt(s: Store, acts: seq<Action>, i: nat, id: MapId)
    requires Counted(s) && i < |acts|
  {
    acts[i].ProbeWrite? && Sets(RunFrom(s, acts[..i]), acts[i], id)
  }

  /** It is one, and no later action is. */
  ghost predicate IsLastWrite(s: Store, acts: seq<Action>, i: nat, id: MapId)
    requires Counted(s) && i < |acts|
    ensures IsLastWrite(s, acts, i, id) ==> acts[i].ProbeWrite?
  {
    WritesAt(s, acts, i, id) && forall j: nat :: i < j < |acts| ==> !WritesAt(s, acts, j, id)
  }

  /** Map `id` is what is published before, between and after the actions. */
  ghost predicate StaysPublished(s: Store, acts: seq<Action>, id: MapId)
    requires Counted(s)
  {
    forall i :: 0 <= i <= |acts| ==> RunFrom(s, acts[..i]).published == Some(id)
  }

  /** No action of `acts` publishes anything or takes back what is published. */
  predicate NoRegistration(acts: seq<Action>) {
    forall i :: 0 <= i < |acts| ==> !acts[i].Unregister? && !acts[i].Destroy? && !(acts[i].Register? && acts[i].data.Some?)
  }

  lemma {:induction false} NoRegistrationStays(s: Store, acts: seq<Action>, id: MapId)
    requires Counted(s) && s.published == Some(id) && NoRegistration(acts)
    ensures StaysPublished(s, acts, id)
  {
    hide Step, Counted, RunFrom, NoRegistration;
    forall i | 0 <= i <= |acts| ensures RunFrom(s, acts[..i]).published == Some(id) {
      PublishedBefore(s, acts, i, id);
    }
  }

  lemma {:induction false} StepStaysPublished(s: Store, a: Action)
    requires Counted(s) && !a.Unregister? && !a.Destroy? && !(a.Register? && a.data.Some?)
    ensures Step(s, a).published == s.published
  {
    hide Counted;
  }

  lemma {:induction false} PublishedBefore(s: Store, acts: seq<Action>, i: nat, id: MapId)
    requires Counted(s) && s.published == Some(id) && NoRegistration(acts) && i <= |acts|
    ensures RunFrom(s, acts[..i]).published == Some(id)
  {
    if i > 0 {
      PublishedBefore(s, acts, i - 1, id);
      assert acts[..i][..i - 1] == acts[..i - 1];
      hide Step, Counted;
      StepStaysPublished(RunFrom(s, acts[..i - 1]), acts[i - 1]);
    }
  }

  /** What one action does to the value that flows read. */
  lemma {:induction false} StepLookup(s: Store, a: Action, id: MapId)
    requires Counted(s) && s.published == Some(id)
    ensures Counted(Step(s, a))
    ensures Step(s, a).published == Some(id) ==>
              LookupValue(Step(s, a)) == if a.ProbeWrite? && Sets(s, a, id) then Some(a.value) else LookupValue(s)
  {
    StepKeepsCounted(s, a);
    if Step(s, a).published == Some(id) {
      StepFrame(s, a, id);
    }
  }

  /** The slot of a map that stays published is what the newest probe write left there, if there was one. */
  lemma {:induction false} SlotAfter(s: Store, acts: seq<Action>, id: MapId)
    requires Counted(s) && StaysPublished(s, acts, id)
    ensures s.published == Some(id)
    ensures LookupValue(RunFrom(s, acts)) ==
            match LastWrite(s, acts, id)
            case None => LookupValue(s)
            case Some(i) => Some(acts[i].value)
  {
    var n := |acts| - 1;
    assert acts[..|acts|] == acts && acts[..0] == [];
    if acts != [] {
      var head, a := acts[..n], acts[n];
      assert forall i :: 0 <= i <= n ==> head[..i] == acts[..i];
      SlotAfter(s, head, id);
      StepLookup(RunFrom(s, head), a, id);
      hide Step, Counted, LookupValue, Sets;
    }
  }

  /** The newest probe write to map `id` among `acts`. */
  ghost function LastWrite(s: Store, acts: seq<Action>, id: MapId): (r: Option<nat>)
    requires Counted(s)
    ensures r.Some? ==> r.value < |acts| && acts[r.value].ProbeWrite?
  {
    if acts == [] then None else
    var n := |acts| - 1;
    if WritesAt(s, acts, n, id) then Some(n) else LastWrite(s, acts[..n], id)
  }

  lemma {:induction false} WritesAtPrefix(s: Store, acts: seq<Action>, n: nat, i: nat, id: MapId)
    requires Counted(s) && i < n <= |acts|
    ensures WritesAt(s, acts[..n], i, id) == WritesAt(s, acts, i, id)
  {
    assert acts[..n][..i] == acts[..i];
  }

  lemma {:induction false} LastWriteIsNewest(s: Store, acts: seq<Action>, id: MapId)
    requires Counted(s)
    ensures match LastWrite(s, acts, id)
            case None => forall j: nat :: j < |acts| ==> !WritesAt(s, acts, j, id)
            case Some(i) => WritesAt(s, acts, i, id) && forall j: nat :: i < j < |acts| ==> !WritesAt(s, acts, j, id)
  {
    hide WritesAt, Counted;
    var n := |acts| - 1;
    if acts != [] && !WritesAt(s, acts, n, id) {
      LastWriteIsNewest(s, acts[..n], id);
      forall j: nat | j < n ensures WritesAt(s, acts[..n], j, id) == WritesAt(s, acts, j, id) {
        WritesAtPrefix(s, acts, n, j, id);
      }
    }
  }

  /** If there is a newest probe write to map `id` among `acts`, it stores `value`. */
  ghost predicate NewestWriteStores(s: Store, acts: seq<Action>, id: MapId, value: u32)
    requires Counted(s)
  {
    forall i: nat :: i < |acts| && IsLastWrite(s, acts, i, id) ==> acts[i].value == value
  }

  lemma {:induction false} NewestWriteIsLast(s: Store, acts: seq<Action>, id: MapId, value: u32)
    requires Counted(s)
    ensures NewestWriteStores(s, acts, id, value) <==>
            match LastWrite(s, acts, id)
            case None => true
            case Some(i) => acts[i].value == value
  {
    hide WritesAt, LastWrite, Counted;
    LastWriteIsNewest(s, acts, id);
    if LastWrite(s, acts, id).Some? {
      assert IsLastWrite(s, acts, LastWrite(s, acts, id).value, id);
    }
  }

  lemma {:induction false} WrittenIsRead(s: Store, fd: Fd, value: u32)
    requires Counted(s) && fd in s.handles
    ensures Counted(Step(s, ProbeWrite(fd, value)))
    ensures var written := Step(s, ProbeWrite(fd, value));
            written.published == Some(s.handles[fd]) ==> LookupValue(written) == Some(value)
  {
    StepKeepsCounted(s, ProbeWrite(fd, value));
  }

  /**
   While its map stays published, a flow reads its own probe's decision exactly if the newest write to that map
   since then, whichever probe made it, stored the same value, or there was none.
   */
  lemma {:induction false} OwnDecisionApplied(s: Store, fd: Fd, value: u32, between: seq<Action>)
    requires Counted(s) && fd in s.handles
    ensures Counted(Step(s, ProbeWrite(fd, value)))
    ensures var written, id := Step(s, ProbeWrite(fd, value)), s.handles[fd];
            StaysPublished(written, between, id) ==>
              (Decision(RunFrom(written, between)) == value <==> NewestWriteStores(written, between, id, value))
  {
    hide Step, Counted, LookupValue, RunFrom, NewestWriteStores, LastWrite, StaysPublished;
    WrittenIsRead(s, fd, value);
    var written, id := Step(s, ProbeWrite(fd, value)), s.handles[fd];
    NewestWriteIsLast(written, between, id, value);
    if StaysPublished(written, between, id) {
      SlotAfter(written, between, id);
    }
  }

  /** In particular when nothing in between registers, unregisters or unloads. */
  lemma {:induction false} OwnDecisionWhenQuiet(s: Store, fd: Fd, value: u32, between: seq<Action>)
    requires Counted(s) && fd in s.handles && s.published == Some(s.handles[fd])
    requires NoRegistration(between)
    ensures Counted(Step(s, ProbeWrite(fd, value)))
    ensures var written, id := Step(s, ProbeWrite(fd, value)), s.handles[fd];
            Decision(RunFrom(written, between)) == value <==> NewestWriteStores(written, between, id, value)
  {
    hide Step, Counted, Decision, RunFrom, NewestWriteStores, StaysPublished, NoRegistration;
    OwnDecisionApplied(s, fd, value, between);
    StepStaysPublished(s, ProbeWrite(fd, value));
    NoRegistrationStays(Step(s, ProbeWrite(fd, value)), between, s.handles[fd]);
  }

  /** Two flows share the slot: if another probe on the same map runs in between, its decision is the one applied. */
  lemma {:induction false} OtherProbeWins(s: Store, fd: Fd, other: Fd, value: u32, theirs: u32)
    requires Counted(s) && fd in s.handles && other in s.handles
    requires s.published == Some(s.handles[fd]) && s.handles[fd] == s.handles[other]
    ensures Decision(RunFrom(s, [ProbeWrite(fd, value), ProbeWrite(other, theirs)])) == theirs
  {
    var mine, other' := ProbeWrite(fd, value), ProbeWrite(other, theirs);
    var id := s.handles[fd];
    StepStaysPublished(s, mine);
    StepLookup(s, mine, id);
    var mid := Step(s, mine);
    assert mid.handles == s.handles;
    StepStaysPublished(mid, other');
    StepLookup(mid, other', id);
    assert Sets(mid, other', id);
    hide Step, Counted, LookupValue, Sets;
    var first, both := [mine], [mine, other'];
    assert first[..0] == [] && both[..1] == first;
    assert RunFrom(s, first) == Step(RunFrom(s, first[..0]), first[0]);
  }

  // ---------- the character device and the probe ----------

  const REGISTER_CWND := 0x0
  const UNREGISTER_CWND := 0x1

  /** What an ioctl asks for. */
  function Command(cmd: nat, data: Option<Fd>): Action {
    if cmd == REGISTER_CWND then Register(data)
    else if cmd == UNREGISTER_CWND then Unregister
    else OtherCommand
  }

  class CwndDevice {
    var cwndMap: Option<MapId>
    var maps: map<MapId, BpfMap>
    var handles: map<Fd, MapId>
    ghost var gets: nat
    ghost var puts: nat

    ghost function State(): Store
      reads this
    {
      Store(cwndMap, maps, handles, gets, puts)
    }

    ghost predicate Valid()
      reads this
    {
      Counted(State())
    }

    constructor ()
      ensures Valid() && State() == EmptyStore
    {
      EmptyIsCounted();
      hide Counted;
      cwndMap, maps, handles := None, map[], map[];
      gets, puts := 0, 0;
    }

    /** bpf_map_get: None for a descriptor that is not a map. */
    method MapGet(fd: Fd) returns (id: Option<MapId>)
      requires fd in handles ==> handles[fd] in maps
      modifies this`maps, this`gets
      ensures fd !in handles ==> id == None && maps == old(maps) && gets == old(gets)
      ensures fd in handles ==>
                id == Some(handles[fd]) && maps == Get(old(maps), handles[fd]) && gets == old(gets) + 1
    {
      if fd !in handles {
        return None;
      }
      maps := maps[handles[fd] := maps[handles[fd]].(refs := maps[handles[fd]].refs + 1)];
      gets := gets + 1;
      id := Some(handles[fd]);
    }

    /** bpf_map_put */
    method MapPut(id: MapId)
      requires id in maps && maps[id].refs > 0
      modifies this`maps, this`puts
      ensures maps == Put(old(maps), id) && puts == old(puts) + 1
    {
      maps := if maps[id].refs == 1 then maps - {id} else maps[id := maps[id].(refs := maps[id].refs - 1)];
      puts := puts + 1;
    }

    /** cwnd_ioctl */
    method CwndIoctl(cmd: nat, data: Option<Fd>) returns (r: IoctlResult)
      requires Valid()
      modifies this
      ensures Valid() && State() == Step(old(State()), Command(cmd, data))
      ensures Command(cmd, data) == if cmd == 0 then Register(data) else if cmd == 1 then Unregister else OtherCommand
      ensures handles == old(handles)
      ensures cwndMap == if cmd == 0 && data.Some? && data.value in old(handles) then Some(old(handles)[data.value])
                         else if cmd == 1 then None
                         else old(cwndMap)
      ensures r == if cmd == 1 then Done
                   else if cmd != 0 || data.None? then InvalidArgument
                   else if data.value !in old(handles) then BadDescriptor
                   else Done
    {
      if cmd == REGISTER_CWND {
        if data.None? {
          return InvalidArgument;
        }
        r := RegisterMap(data.value);
      } else if cmd == UNREGISTER_CWND {
        Drop();
        r := Done;
      } else {
        r := InvalidArgument;
      }
    }

    /** The new map is taken before the old one is dropped. */
    method RegisterMap(fd: Fd) returns (r: IoctlResult)
      requires Valid()
      modifies this
      ensures Valid()
      ensures State() == if fd in old(handles) then Published(old(State()), fd) else old(State())
      ensures r == if fd in old(handles) then Done else BadDescriptor
    {
      if fd in handles {
        PublishKeepsCounted(State(), fd);
        PublishIsSafe(State(), fd);
      }
      hide Counted;
      var id := MapGet(fd);
      if id.None? {
        return BadDescriptor;
      }
      if cwndMap.Some? {
        MapPut(cwndMap.value);
      }
      cwndMap := id;
      r := Done;
    }

    method Drop()
      requires Valid()
      modifies this
      ensures Valid() && State() == Unpublished(old(State()))
    {
      UnpublishKeepsCounted(State());
      if cwndMap.Some? {
        MapPut(cwndMap.value);
        cwndMap := None;
      }
    }

    /** destroy_hack */
    method DestroyHack()
      requires Valid()
      modifies this
      ensures Valid() && State() == Step(old(State()), Destroy)
      ensures cwndMap == None && handles == old(handles)
    {
      Drop();
    }

    /** lookup_cwnd */
    method LookupCwnd() returns (cwnd: Option<u32>)
      requires Valid()
      ensures cwnd == LookupValue(State())
    {
      if cwndMap.None? {
        return None;
      }
      cwnd := maps[cwndMap.value].slot;
    }

    /** cong_control_logic, after its probe has run. */
    method CongControlLogic() returns (cwnd: u32)
      requires Valid()
      ensures cwnd == Decision(State())
    {
      var found := LookupCwnd();
      cwnd := if found.Some? then found.value else 2;
    }

    /** The end of bpf_heuristic_logic_wrapper: the probe's own handle leads to the map, published or not. */
    method ProbeUpdate(fd: Fd, value: u32)
      requires Valid()
      modifies this`maps
      ensures Valid() && State() == Step(old(State()), ProbeWrite(fd, value))
    {
      StepKeepsCounted(State(), ProbeWrite(fd, value));
      if fd in handles {
        maps := maps[handles[fd] := maps[handles[fd]].(slot := Some(value))];
      }
    }
  }
}
