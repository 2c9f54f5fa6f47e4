/**
 Loading and unloading the kernel driver: a chain of acquisitions over all
 devices, any of which may fail, and the unwind paths that give back what was
 acquired.  `fails` says which kernel calls return an error.
 */
module DriverInit {

  datatype Resource =
    | Region
    | DeviceClass
    | Device(i: nat)
    | Cdev(i: nat)
    | Map(w: nat, i: nat)
    | IpiHandler(i: nat)

  const ENOMEM := 12
  const DEVICE_COUNT := 6

  /** The three regions mapped for every tunnel: control header, send buffer, receive buffer. */
  const MAPS := 3

  /** What is held apart from mappings before the handlers are set: region and class, d devices, c character devices. */
  predicate Expected(r: Resource, d: nat, c: nat) {
    match r
    case Region => true
    case DeviceClass => true
    case Device(i) => i < d
    case Cdev(i) => i < c
    case _ => false
  }

  ghost predicate HoldsStage(held: set<Resource>, d: nat, c: nat) {
    forall r :: r in held && !r.Map? <==> Expected(r, d, c)
  }

  ghost predicate NoMaps(held: set<Resource>) {
    forall w: nat, i: nat :: Map(w, i) !in held
  }

  ghost predicate HoldsMaps(held: set<Resource>, n: nat) {
    forall w: nat, i: nat :: Map(w, i) in held <==> w < MAPS && i < n
  }

  /** All devices of n tunnels, and of the first p tunnels those handlers whose call did not fail. */
  ghost predicate HoldsHandlers(held: set<Resource>, n: nat, p: nat, fails: Resource -> bool) {
    forall r :: r in held && !r.Map? <==> if r.IpiHandler? then r.i < p && !fails(r) else Expected(r, n, n)
  }

  /** Exactly what a loaded driver with n devices holds. */
  ghost predicate HoldsAll(held: set<Resource>, n: nat, fails: Resource -> bool) {
    HoldsHandlers(held, n, n, fails) && HoldsMaps(held, n)
  }

  lemma DeviceAdded(held: set<Resource>, d: nat)
    requires HoldsStage(held, d, 0) && NoMaps(held)
    ensures Device(d) !in held
    ensures HoldsStage(held + {Device(d)}, d + 1, 0) && NoMaps(held + {Device(d)})
  {
  }

  lemma CdevAdded(held: set<Resource>, d: nat, c: nat)
    requires HoldsStage(held, d, c) && NoMaps(held)
    ensures Cdev(c) !in held
    ensures HoldsStage(held + {Cdev(c)}, d, c + 1) && NoMaps(held + {Cdev(c)})
  {
  }

  lemma CdevRemoved(held: set<Resource>, d: nat, c: nat)
    requires HoldsStage(held, d, c + 1) && NoMaps(held)
    ensures Cdev(c) in held
    ensures HoldsStage(held - {Cdev(c)}, d, c) && NoMaps(held - {Cdev(c)})
  {
  }

  /** Later steps of the unwinding have higher ranks. */
  function Rank(r: Resource): nat {
    match r
    case Map(_, _) => 0
    case IpiHandler(_) => 0
    case Cdev(_) => 1
    case Device(_) => 2
    case DeviceClass => 3
    case Region => 4
  }

  /** What has been released from position `from` on went in the order of the ranks, up to rank k. */
  ghost predicate Unwinding(released: seq<Resource>, from: nat, k: nat) {
    && from <= |released|
    && (forall a :: from <= a < |released| ==> Rank(released[a]) <= k)
    && (forall a, b :: from <= a < b < |released| ==> Rank(released[a]) <= Rank(released[b]))
  }

  lemma UnwindMore(released: seq<Resource>, from: nat, k: nat, r: Resource)
    requires Unwinding(released, from, k) && k <= Rank(r)
    ensures Unwinding(released + [r], from, Rank(r))
  {
  }

  ghost predicate Balanced(acquired: seq<Resource>, released: seq<Resource>, held: set<Resource>) {
    multiset(acquired) == multiset(released) + multiset(held)
  }

  /** Tunnels from i on are still complete, earlier ones are gone. */
  ghost predicate LoadedFrom(held: set<Resource>, i: nat, n: nat) {
    && Region in held && DeviceClass in held
    && (forall w: nat, j: nat :: Map(w, j) in held <==> w < MAPS && i <= j < n)
    && (forall j: nat :: Device(j) in held <==> i <= j < n)
    && (forall j: nat :: Cdev(j) in held <==> i <= j < n)
    && (forall j: nat :: IpiHandler(j) in held ==> i <= j < n)
  }

  ghost function WithoutTunnel(held: set<Resource>, i: nat): set<Resource> {
    held - {IpiHandler(i)} - {Map(0, i)} - {Map(1, i)} - {Map(2, i)} - {Cdev(i)} - {Device(i)}
  }

  lemma OneTunnelLess(held: set<Resource>, i: nat, n: nat)
    requires LoadedFrom(held, i, n) && i < n
    ensures LoadedFrom(WithoutTunnel(held, i), i + 1, n)
    ensures forall j: nat :: i < j ==> (IpiHandler(j) in WithoutTunnel(held, i) <==> IpiHandler(j) in held)
  {
  }

  class Driver {
    const count: nat
    const dev: array<nat>
    const pointer: array2<bool>
    ghost var held: set<Resource>
    ghost var acquired: seq<Resource>
    ghost var released: seq<Resource>
    ghost var stray: set<nat>

    /** Everything acquired has been released exactly once or is still held. */
    ghost predicate Valid()
      reads this
    {
      && dev.Length == pointer.Length1 == count && pointer.Length0 == MAPS
      && Balanced(acquired, released, held)
    }

    constructor (count: nat)
      ensures Valid() && this.count == count && held == {} && acquired == [] && released == [] && stray == {}
      ensures fresh(dev) && fresh(pointer)
    {
      this.count := count;
      dev := new nat[count](_ => 0);
      pointer := new bool[MAPS, count]((_, _) => false);
      held, acquired, released, stray := {}, [], [], {};
    }

    /** A kernel call that hands out a resource, or fails. */
    method Acquire(r: Resource, fails: bool) returns (ok: bool)
      requires Valid() && r !in held
      modifies this`held, this`acquired
      ensures Valid() && ok == !fails
      ensures held == if ok then old(held) + {r} else old(held)
    {
      ok := !fails;
      if ok {
        held, acquired := held + {r}, acquired + [r];
      }
    }

    /** A kernel call that takes a resource back; giving back what is not held would be an error. */
    method Release(r: Resource)
      requires Valid() && r in held
      modifies this`held, this`released
      ensures Valid() && held == old(held) - {r} && released == old(released) + [r]
    {
      held, released := held - {r}, released + [r];
    }

    /** The first k devices have their number set, the others do not. */
    ghost predicate NumbersSet(k: nat)
      requires dev.Length == count
      reads dev
    {
      forall i :: 0 <= i < count ==> (dev[i] != 0 <==> i < k)
    }

    method CreateDevice(fails: bool, number: nat, i: nat) returns (ok: bool)
      requires Valid() && HoldsStage(held, i, 0) && NoMaps(held) && NumbersSet(i) && i < count && 0 < number
      modifies this`held, this`acquired, dev
      ensures Valid() && NoMaps(held) && ok == !fails
      ensures var k := if ok then i + 1 else i; HoldsStage(held, k, 0) && NumbersSet(k)
    {
      DeviceAdded(held, i);
      ok := Acquire(Device(i), fails);
      if ok {
        dev[i] := number;
      }
    }

    /** Creates the device nodes in order; a failure leaves the later entries zero. */
    method CreateDevices(fails: Resource -> bool, firstDevice: nat) returns (ok: bool, ghost k: nat)
      requires Valid() && HoldsStage(held, 0, 0) && NoMaps(held) && 0 < firstDevice && NumbersSet(0)
      modifies this`held, this`acquired, dev
      ensures Valid() && k <= count && HoldsStage(held, k, 0) && NoMaps(held) && NumbersSet(k)
      ensures ok <==> forall i: nat :: i < count ==> !fails(Device(i))
      ensures ok ==> k == count
    {
      for i := 0 to count
        invariant Valid() && HoldsStage(held, i, 0) && NoMaps(held) && NumbersSet(i)
        invariant forall j: nat :: j < i ==> !fails(Device(j))
      {
        ok := CreateDevice(fails(Device(i)), firstDevice + i, i);
        if !ok {
          return ok, i;
        }
      }
      ok, k := true, count;
    }

    /** Deletes the first n character devices, last one first. */
    method DeleteAdded(n: nat, ghost from: nat)
      requires Valid() && n <= count && HoldsStage(held, count, n) && NoMaps(held) && Unwinding(released, from, 1)
      modifies this`held, this`released
      ensures Valid() && HoldsStage(held, count, 0) && NoMaps(held) && Unwinding(released, from, 1)
    {
      for j := n downto 0
        invariant Valid() && HoldsStage(held, count, j) && NoMaps(held) && Unwinding(released, from, 1)
      {
        CdevRemoved(held, count, j);
        UnwindMore(released, from, 1, Cdev(j));
        Release(Cdev(j));
      }
    }

    method AddCdev(fails: bool, i: nat) returns (ok: bool)
      requires Valid() && HoldsStage(held, count, i) && NoMaps(held) && i < count
      modifies this`held, this`acquired
      ensures Valid() && HoldsStage(held, count, if ok then i + 1 else i) && NoMaps(held) && ok == !fails
    {
      CdevAdded(held, count, i);
      ok := Acquire(Cdev(i), fails);
    }

    /** Adds the character devices; a failure deletes those already added, last one first. */
    method AddCdevs(fails: Resource -> bool) returns (ok: bool)
      requires Valid() && HoldsStage(held, count, 0) && NoMaps(held)
      modifies this`held, this`acquired, this`released
      ensures Valid() && HoldsStage(held, count, if ok then count else 0) && NoMaps(held)
      ensures ok ==> released == old(released)
      ensures Unwinding(released, |old(released)|, 1)
      ensures ok <==> forall i: nat :: i < count ==> !fails(Cdev(i))
    {
      for i := 0 to count
        invariant Valid() && HoldsStage(held, count, i) && NoMaps(held)
        invariant released == old(released)
        invariant forall j: nat :: j < i ==> !fails(Cdev(j))
      {
        ok := AddCdev(fails(Cdev(i)), i);
        if !ok {
          DeleteAdded(i, |old(released)|);
          return;
        }
      }
      ok := true;
    }

    /** The non-null pointers from pointer w of tunnel i on are exactly the mappings held. */
    ghost predicate MapsTracked(w: nat, i: nat)
      requires Valid()
      reads this, pointer
    {
      forall v: nat, j: nat :: Map(v, j) in held <==>
        v < MAPS && j < count && (i < j || (i == j && w <= v)) && pointer[v, j]
    }

    /** One `memremap`: the pointer is null exactly if the call failed. */
    method MapOne(fails: bool, w: nat, i: nat)
      requires Valid() && MapsTracked(0, 0) && w < MAPS && i < count && !pointer[w, i]
      modifies this`held, this`acquired, pointer
      ensures Valid() && MapsTracked(0, 0) && pointer[w, i] == !fails
      ensures forall r: Resource :: !r.Map? ==> (r in held <==> r in old(held))
      ensures forall v, j :: 0 <= v < MAPS && 0 <= j < count && (v != w || j != i) ==> pointer[v, j] == old(pointer[v, j])
    {
      var ok := Acquire(Map(w, i), fails);
      pointer[w, i] := ok;
    }

    ghost predicate MappingFails(fails: Resource -> bool, i: nat) {
      fails(Map(0, i)) || fails(Map(1, i)) || fails(Map(2, i))
    }

    method MapTunnel(fails: Resource -> bool, i: nat) returns (ok: bool)
      requires Valid() && MapsTracked(0, 0) && i < count && !pointer[0, i] && !pointer[1, i] && !pointer[2, i]
      modifies this`held, this`acquired, pointer
      ensures Valid() && MapsTracked(0, 0)
      ensures forall r: Resource :: !r.Map? ==> (r in held <==> r in old(held))
      ensures ok <==> !MappingFails(fails, i)
      ensures ok ==> pointer[0, i] && pointer[1, i] && pointer[2, i]
      ensures forall v, j :: 0 <= v < MAPS && 0 <= j < count && j != i ==> pointer[v, j] == old(pointer[v, j])
    {
      MapOne(fails(Map(0, i)), 0, i);
      MapOne(fails(Map(1, i)), 1, i);
      MapOne(fails(Map(2, i)), 2, i);
      ok := pointer[0, i] && pointer[1, i] && pointer[2, i];
    }

    method MapMemory(fails: Resource -> bool) returns (ok: bool)
      requires Valid() && HoldsStage(held, count, count) && NoMaps(held)
      requires forall w, i :: 0 <= w < MAPS && 0 <= i < count ==> !pointer[w, i]
      modifies this`held, this`acquired, pointer
      ensures Valid() && MapsTracked(0, 0) && HoldsStage(held, count, count)
      ensures ok <==> forall i: nat :: i < count ==> !MappingFails(fails, i)
      ensures ok ==> HoldsMaps(held, count)
    {
      for i := 0 to count
        invariant Valid() && MapsTracked(0, 0) && HoldsStage(held, count, count)
        invariant forall w, j :: 0 <= w < MAPS && i <= j < count ==> !pointer[w, j]
        invariant forall w, j :: 0 <= w < MAPS && 0 <= j < i ==> pointer[w, j]
        invariant forall j: nat :: j < i ==> !MappingFails(fails, j)
      {
        ok := MapTunnel(fails, i);
        if !ok {
          return;
        }
      }
      ok := true;
    }

    /** Unmaps every non-null pointer of tunnel i. */
    method UnmapPointers(i: nat, ghost from: nat)
      requires Valid() && i < count && MapsTracked(0, i) && Unwinding(released, from, 0)
      modifies this`held, this`released
      ensures Valid() && MapsTracked(0, i + 1) && Unwinding(released, from, 0)
      ensures forall r: Resource :: !r.Map? ==> (r in held <==> r in old(held))
    {
      for w := 0 to MAPS
        invariant Valid() && MapsTracked(w, i) && Unwinding(released, from, 0)
        invariant forall r: Resource :: !r.Map? ==> (r in held <==> r in old(held))
      {
        if pointer[w, i] {
          UnwindMore(released, from, 0, Map(w, i));
          Release(Map(w, i));
        }
      }
    }

    /** Unmaps every non-null pointer of every tunnel. */
    method UnmapMemory()
      requires Valid() && MapsTracked(0, 0)
      modifies this`held, this`released
      ensures Valid() && NoMaps(held) && Unwinding(released, |old(released)|, 0)
      ensures forall r: Resource :: !r.Map? ==> (r in held <==> r in old(held))
    {
      for i := 0 to count
        invariant Valid() && MapsTracked(0, i) && Unwinding(released, |old(released)|, 0)
        invariant forall r: Resource :: !r.Map? ==> (r in held <==> r in old(held))
      {
        UnmapPointers(i, |old(released)|);
      }
    }

    method DeleteCdevs(ghost from: nat)
      requires Valid() && HoldsStage(held, count, count) && NoMaps(held) && Unwinding(released, from, 1)
      modifies this`held, this`acquired, this`released
      ensures Valid() && HoldsStage(held, count, 0) && NoMaps(held) && Unwinding(released, from, 1)
    {
      for i := 0 to count
        invariant Valid() && NoMaps(held) && Unwinding(released, from, 1)
        invariant forall r :: r in held <==> Expected(r, count, count) && !(r.Cdev? && r.i < i)
      {
        UnwindMore(released, from, 1, Cdev(i));
        Release(Cdev(i));
      }
    }

    method DestroyDeviceNodes(ghost k: nat, ghost from: nat)
      requires Valid() && k <= count && HoldsStage(held, k, 0) && NoMaps(held)
      requires NumbersSet(k) && Unwinding(released, from, 2)
      modifies this`held, this`released
      ensures Valid() && NoMaps(held) && HoldsStage(held, 0, 0) && Unwinding(released, from, 2)
    {
      for i := 0 to count
        invariant Valid() && NoMaps(held) && Unwinding(released, from, 2)
        invariant forall r :: r in held <==> Expected(r, k, 0) && !(r.Device? && r.i < i)
      {
        if dev[i] != 0 {
          UnwindMore(released, from, 2, Device(i));
          Release(Device(i));
        }
      }
    }

    /** Destroys the devices whose number was set, then the class. */
    method DestroyDevices(ghost k: nat, ghost from: nat)
      requires Valid() && k <= count && HoldsStage(held, k, 0) && NoMaps(held)
      requires NumbersSet(k) && Unwinding(released, from, 2)
      modifies this`held, this`released
      ensures Valid() && held == {Region} && Unwinding(released, from, 3)
    {
      DestroyDeviceNodes(k, from);
      UnwindMore(released, from, 2, DeviceClass);
      Release(DeviceClass);
    }

    /** Sets the interrupt handlers; the driver ignores what the calls return. */
    method SetIpiHandlers(fails: Resource -> bool)
      requires Valid() && HoldsStage(held, count, count) && HoldsMaps(held, count)
      modifies this`held, this`acquired
      ensures Valid() && HoldsAll(held, count, fails)
    {
      for i := 0 to count
        invariant Valid() && HoldsHandlers(held, count, i, fails) && HoldsMaps(held, count)
      {
        var ok := Acquire(IpiHandler(i), fails(IpiHandler(i)));
      }
    }

    /** The part of the initialisation that works on all tunnels; a failure gives back all but the number region. */
    method LoadTunnels(fails: Resource -> bool, firstDevice: nat) returns (ret: int)
      requires Valid() && HoldsStage(held, 0, 0) && NoMaps(held) && 0 < firstDevice
      requires NumbersSet(0)
      requires forall w, i :: 0 <= w < MAPS && 0 <= i < count ==> !pointer[w, i]
      modifies this`held, this`acquired, this`released, dev, pointer
      ensures ret == 0 || ret == -12 || ret == -1
      ensures Valid() && ret <= 0
      ensures if ret == 0 then HoldsAll(held, count, fails) else held == {Region}
      ensures ret == 0 ==> released == old(released)
      ensures ret == 0 <==> TunnelsLoad(fails)
      ensures ret == -12 <==> DevicesLoad(fails) && !TunnelsLoad(fails)
      ensures Unwinding(released, |old(released)|, 3)
    {
      var ok; ghost var k;
      ok, k := CreateDevices(fails, firstDevice);
      ret := -1;
      if ok {
        ok := AddCdevs(fails);
        if ok {
          ok := MapMemory(fails);
          if ok {
            SetIpiHandlers(fails);
            return 0;
          }
          ret := -ENOMEM;
          UnmapMemory();
          DeleteCdevs(|old(released)|);
        }
      }
      DestroyDevices(k, |old(released)|);
    }

    ghost predicate DevicesLoad(fails: Resource -> bool) {
      && (forall i: nat :: i < count ==> !fails(Device(i)))
      && (forall i: nat :: i < count ==> !fails(Cdev(i)))
    }

    ghost predicate TunnelsLoad(fails: Resource -> bool) {
      && DevicesLoad(fails)
      && (forall i: nat :: i < count ==> !MappingFails(fails, i))
    }

    /** Success holds everything; failure at any call holds nothing, and each resource acquired was released exactly once. */
    method Init(fails: Resource -> bool, firstDevice: nat) returns (ret: int)
      requires Valid() && held == {} && 0 < firstDevice
      modifies this`held, this`acquired, this`released, dev, pointer
      ensures ret == 0 || ret == -12 || ret == -1
      ensures Valid() && ret <= 0
      ensures if ret == 0 then HoldsAll(held, count, fails) else held == {} && multiset(released) == multiset(acquired)
      ensures ret == 0 ==> released == old(released)
      ensures ret == -12 <==> !fails(Region) && !fails(DeviceClass) && DevicesLoad(fails) && !TunnelsLoad(fails)
      ensures Unwinding(released, |old(released)|, 4)
      ensures ret == 0 <==> !fails(Region) && !fails(DeviceClass) && TunnelsLoad(fails)
    {
      forall i | 0 <= i < count {
        dev[i] := 0;
      }
      forall w, i | 0 <= w < MAPS && 0 <= i < count {
        pointer[w, i] := false;
      }
      var ok := Acquire(Region, fails(Region));
      if !ok {
        return -1;
      }
      ok := Acquire(DeviceClass, fails(DeviceClass));
      ret := -1;
      if ok {
        ret := LoadTunnels(fails, firstDevice);
        if ret == 0 {
          return;
        }
      }
      UnwindMore(released, |old(released)|, 3, Region);
      Release(Region);
    }

    /** Clears a handler without knowing whether it was ever set. */
    method ClearIpiHandler(i: nat)
      requires Valid()
      modifies this`held, this`released, this`stray
      ensures Valid() && held == old(held) - {IpiHandler(i)}
      ensures forall r: Resource :: !r.IpiHandler? && r in old(held) ==> r in held
      ensures stray == if IpiHandler(i) in old(held) then old(stray) else old(stray) + {i}
    {
      if IpiHandler(i) in held {
        held, released := held - {IpiHandler(i)}, released + [IpiHandler(i)];
      } else {
        stray := stray + {i};
      }
    }

    method UnmapTunnel(i: nat)
      requires Valid() && Map(0, i) in held && Map(1, i) in held && Map(2, i) in held
      modifies this`held, this`released
      ensures Valid() && held == old(held) - {Map(0, i)} - {Map(1, i)} - {Map(2, i)}
      ensures forall r: Resource :: !r.Map? && r in old(held) ==> r in held
    {
      Release(Map(0, i));
      Release(Map(1, i));
      Release(Map(2, i));
    }

    method DestroyDevice(i: nat)
      requires Valid() && Cdev(i) in held && Device(i) in held
      modifies this`held, this`released
      ensures Valid() && held == old(held) - {Cdev(i)} - {Device(i)}
    {
      Release(Cdev(i));
      Release(Device(i));
    }

    method GiveBack(i: nat)
      requires Valid() && Cdev(i) in held && Device(i) in held
      requires Map(0, i) in held && Map(1, i) in held && Map(2, i) in held
      modifies this`held, this`released, this`stray
      ensures Valid() && held == WithoutTunnel(old(held), i)
      ensures stray == if IpiHandler(i) in old(held) then old(stray) else old(stray) + {i}
    {
      ClearIpiHandler(i);
      UnmapTunnel(i);
      DestroyDevice(i);
    }

    method UnloadTunnel(i: nat)
      requires Valid() && i < count && LoadedFrom(held, i, count)
      modifies this`held, this`released, this`stray
      ensures Valid() && LoadedFrom(held, i + 1, count)
      ensures forall j: nat :: i < j ==> (IpiHandler(j) in held <==> IpiHandler(j) in old(held))
      ensures stray == if IpiHandler(i) in old(held) then old(stray) else old(stray) + {i}
    {
      OneTunnelLess(held, i, count);
      GiveBack(i);
    }

    method UnloadAll()
      requires Valid() && LoadedFrom(held, 0, count) && stray == {}
      modifies this`held, this`released, this`stray
      ensures Valid() && LoadedFrom(held, count, count)
      ensures forall i: nat :: i in stray <==> i < count && IpiHandler(i) !in old(held)
    {
      for i := 0 to count
        invariant Valid() && LoadedFrom(held, i, count)
        invariant forall j: nat :: i <= j ==> (IpiHandler(j) in held <==> IpiHandler(j) in old(held))
        invariant forall j: nat :: j in stray <==> j < i && IpiHandler(j) !in old(held)
      {
        UnloadTunnel(i);
      }
    }

    method ReleaseShared()
      requires Valid() && LoadedFrom(held, count, count)
      modifies this`held, this`released
      ensures Valid() && held == {} && released == old(released) + [DeviceClass, Region]
    {
      NothingLeft(held - {DeviceClass} - {Region}, held, count);
      Release(DeviceClass);
      Release(Region);
    }

    /**
     Unloading gives back everything a loaded driver holds, each resource exactly once; beyond that it clears
     exactly the handlers that were never set.
     */
    method Exit()
      requires Valid() && LoadedFrom(held, 0, count) && stray == {}
      modifies this`held, this`released, this`stray
      ensures Valid() && held == {} && multiset(released) == multiset(acquired)
      ensures |released| >= 2 && released[|released| - 2..] == [DeviceClass, Region]
      ensures forall i: nat :: i in stray <==> i < count && IpiHandler(i) !in old(held)
    {
      UnloadAll();
      ReleaseShared();
    }

    /** Load, then unload: nothing stays, nothing is released twice, and nothing that was never acquired is released exactly if every handler could be set. */
    method LoadAndUnload(fails: Resource -> bool, firstDevice: nat) returns (ret: int)
      requires Valid() && held == {} && stray == {} && 0 < firstDevice
      modifies this, dev, pointer
      ensures Valid() && held == {} && multiset(released) == multiset(acquired)
      ensures ret == 0 <==> !fails(Region) && !fails(DeviceClass) && TunnelsLoad(fails)
      ensures ret == 0 ==> exists all: set<Resource> ::
        HoldsAll(all, count, fails) && multiset(acquired) == multiset(old(acquired)) + multiset(all)
      ensures stray == {} <==> ret != 0 || forall i: nat :: i < count ==> !fails(IpiHandler(i))
    {
      ret := Init(fails, firstDevice);
      if ret == 0 {
        AllIsLoaded(held, count, fails);
        ghost var all := held;
        assert multiset(acquired) == multiset(old(acquired)) + multiset(all);
        Exit();
        assert forall i: nat :: i in stray <==> i < count && fails(IpiHandler(i));
      }
    }
  }

  lemma AllIsLoaded(held: set<Resource>, n: nat, fails: Resource -> bool)
    requires HoldsAll(held, n, fails)
    ensures LoadedFrom(held, 0, n)
    ensures forall i: nat :: IpiHandler(i) in held <==> i < n && !fails(IpiHandler(i))
  {
    forall i: nat
      ensures IpiHandler(i) in held <==> i < n && !fails(IpiHandler(i))
    {
      var r := IpiHandler(i);
      assert r in held && !r.Map? <==> r.i < n && !fails(r);
    }
  }

  lemma NothingLeft(rest: set<Resource>, all: set<Resource>, n: nat)
    requires LoadedFrom(all, n, n) && rest == all - {DeviceClass} - {Region}
    ensures rest == {}
  {
    forall r
      ensures r !in rest
    {
      match r
      case Region =>
      case DeviceClass =>
      case Map(w, j) => assert r !in all;
      case Device(j) => assert r !in all;
      case Cdev(j) => assert r !in all;
      case IpiHandler(j) => assert r !in all;
    }
  }

  // ---------------------------------------------------------- how much is held

  /** Region, class, and six resources for each of n tunnels. */
  ghost function Everything(n: nat): set<Resource> {
    if n == 0 then {Region, DeviceClass}
    else Everything(n - 1) + PerTunnel(n - 1)
  }

  ghost function PerTunnel(i: nat): set<Resource> {
    {Device(i), Cdev(i), Map(0, i), Map(1, i), Map(2, i), IpiHandler(i)}
  }

  ghost predicate Belongs(r: Resource, n: nat) {
    match r
    case Region => true
    case DeviceClass => true
    case Map(w, i) => w < MAPS && i < n
    case Device(i) => i < n
    case Cdev(i) => i < n
    case IpiHandler(i) => i < n
  }

  lemma {:induction false} EverythingBelongs(n: nat, r: Resource)
    ensures r in Everything(n) <==> Belongs(r, n)
  {
    if n > 0 {
      EverythingBelongs(n - 1, r);
    }
  }

  lemma SixPerTunnel(i: nat)
    ensures |PerTunnel(i)| == 6
  {
    var a, b := {Device(i), Cdev(i), IpiHandler(i)}, {Map(0, i), Map(1, i), Map(2, i)};
    assert |a| == 3 && |b| == 3 && a !! b;
    assert PerTunnel(i) == a + b;
  }

  lemma PerTunnelIsNew(n: nat)
    ensures Everything(n) !! PerTunnel(n)
  {
    forall r | r in PerTunnel(n)
      ensures r !in Everything(n)
    {
      EverythingBelongs(n, r);
    }
  }

  lemma SizesAdd(a: set<Resource>, b: set<Resource>)
    requires a !! b
    ensures |a + b| == |a| + |b|
  {
  }

  lemma {:induction false} EverythingIsCounted(n: nat)
    ensures |Everything(n)| == 2 + 6 * n
  {
    if n == 0 {
    } else {
      EverythingIsCounted(n - 1);
      SixPerTunnel(n - 1);
      PerTunnelIsNew(n - 1);
      SizesAdd(Everything(n - 1), PerTunnel(n - 1));
    }
  }

  /** A loaded driver with all its handlers set holds six resources per tunnel and two shared ones: 38 for the six tunnels. */
  lemma LoadedDriverHolds(held: set<Resource>, n: nat, fails: Resource -> bool)
    requires HoldsAll(held, n, fails) && forall i: nat :: i < n ==> !fails(IpiHandler(i))
    ensures |held| == 2 + 6 * n
    ensures n == DEVICE_COUNT ==> |held| == 38
  {
    EverythingIsCounted(n);
    AllIsLoaded(held, n, fails);
    forall r
      ensures r in held <==> r in Everything(n)
    {
      EverythingBelongs(n, r);
    }
    assert held == Everything(n);
  }
}
