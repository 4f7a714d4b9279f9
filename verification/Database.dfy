/** The database of hosts and resources (src/ResourceDatabase.cpp) as a value, one function per
    operation. Resources and hosts point at each other; a resource pointer is its index (the
    vector never shrinks), a host pointer is a number never used again once its host is gone. */
module Database {
  import opened ResourceHeaders

  type Ip = nat
  type HostPtr = nat

  datatype ResourceEntry = ResourceEntry(key: Resource, invalidated: bool, hosts: seq<HostPtr>)
  datatype HostEntry = HostEntry(ptr: HostPtr, ip: Ip, possessed: seq<nat>)

  /** `hosts[0]` is localhost. `next` is the next unused host pointer. */
  datatype Db = Db(resources: seq<ResourceEntry>, hosts: seq<HostEntry>, next: HostPtr)

  /** `NullDereference`: the operation followed a pointer to a host that is gone. */
  datatype Outcome = Done(db: Db, result: bool) | NullDereference

  function NewDb(local: Ip): Db { Db([], [HostEntry(0, local, [])], 1) }

  // ----- Lookups: the first match, or the length -----

  function FindResource(rs: seq<ResourceEntry>, key: Resource): (i: nat)
    ensures i <= |rs| && (i < |rs| ==> rs[i].key == key)
    ensures forall j: nat | j < i :: rs[j].key != key
  {
    if rs == [] || rs[0].key == key then 0 else 1 + FindResource(rs[1..], key)
  }

  function FindIp(hs: seq<HostEntry>, ip: Ip): (i: nat)
    ensures i <= |hs| && (i < |hs| ==> hs[i].ip == ip)
    ensures forall j: nat | j < i :: hs[j].ip != ip
  {
    if hs == [] || hs[0].ip == ip then 0 else 1 + FindIp(hs[1..], ip)
  }

  /** weak_ptr::lock; the length means that the host is gone. */
  function Lock(hs: seq<HostEntry>, p: HostPtr): (i: nat)
    ensures i <= |hs| && (i < |hs| ==> hs[i].ptr == p)
    ensures forall j: nat | j < i :: hs[j].ptr != p
  {
    if hs == [] || hs[0].ptr == p then 0 else 1 + Lock(hs[1..], p)
  }

  predicate Live(db: Db, p: HostPtr) { Lock(db.hosts, p) < |db.hosts| }

  /** remove_if and erase: all occurrences of `x` go. */
  function Without<T(==)>(s: seq<T>, x: T): (t: seq<T>)
    ensures multiset(t) == multiset(s)[x := 0]
  {
    if s == [] then []
    else
      assert s == [s[0]] + s[1..];
      if s[0] == x then Without(s[1..], x) else [s[0]] + Without(s[1..], x)
  }

  /** The value comparison of has_resource: does host `h` hold a pointer to a resource equal to `key`? */
  predicate HostHas(db: Db, h: nat, key: Resource)
    requires h < |db.hosts|
  {
    exists r: nat :: r < |db.resources| && r in db.hosts[h].possessed && db.resources[r].key == key
  }

  // ----- Operations -----

  function WithResource(db: Db, key: Resource): (db': Db)
    ensures FindResource(db'.resources, key) < |db'.resources|
  {
    if FindResource(db.resources, key) < |db.resources| then db
    else
      var db' := db.(resources := db.resources + [ResourceEntry(key, false, [])]);
      assert db'.resources[|db.resources|].key == key;
      db'
  }

  function WithHost(db: Db, ip: Ip): (db': Db)
    ensures FindIp(db'.hosts, ip) < |db'.hosts|
  {
    if FindIp(db.hosts, ip) < |db.hosts| then db
    else
      var db' := db.(hosts := db.hosts + [HostEntry(db.next, ip, [])], next := db.next + 1);
      assert db'.hosts[|db.hosts|].ip == ip;
      db'
  }

  function Link(db: Db, r: nat, h: nat): Db
    requires r < |db.resources| && h < |db.hosts|
  {
    db.(resources := db.resources[r := db.resources[r].(hosts := db.resources[r].hosts + [db.hosts[h].ptr])],
        hosts := db.hosts[h := db.hosts[h].(possessed := db.hosts[h].possessed + [r])])
  }

  /** add_file_internal: duplicates are allowed. */
  function AddFile(db: Db, key: Resource, ip: Ip): Db {
    var db1 := WithHost(WithResource(db, key), ip);
    Link(db1, FindResource(db1.resources, key), FindIp(db1.hosts, ip))
  }

  datatype Holder = Holder(host: nat) | NoHolder | Dangling

  /** The search of remove_file through hosts_in_possession; every pointer passed is followed. */
  function FindHolder(hs: seq<HostEntry>, ptrs: seq<HostPtr>, ip: Ip): (f: Holder)
    ensures f.Holder? ==> f.host < |hs| && hs[f.host].ip == ip && hs[f.host].ptr in ptrs
    ensures f.NoHolder? ==> forall p | p in ptrs :: Lock(hs, p) < |hs| && hs[Lock(hs, p)].ip != ip
    ensures f.Dangling? ==> exists p :: p in ptrs && Lock(hs, p) == |hs|
  {
    if ptrs == [] then NoHolder
    else
      var i := Lock(hs, ptrs[0]);
      if i == |hs| then Dangling
      else if hs[i].ip == ip then Holder(i)
      else FindHolder(hs, ptrs[1..], ip)
  }

  function Unlink(db: Db, r: nat, h: nat): Db
    requires r < |db.resources| && h < |db.hosts|
  {
    db.(resources := db.resources[r := db.resources[r].(hosts := Without(db.resources[r].hosts, db.hosts[h].ptr))],
        hosts := db.hosts[h := db.hosts[h].(possessed := Without(db.hosts[h].possessed, r))])
  }

  function RemoveFile(db: Db, key: Resource, ip: Ip): Outcome {
    var r := FindResource(db.resources, key);
    if r == |db.resources| then Done(db, false)
    else
      match FindHolder(db.hosts, db.resources[r].hosts, ip)
      case Holder(h) => Done(Unlink(db, r, h), true)
      case NoHolder => Done(db, false)
      case Dangling => NullDereference
  }

  /** One round of the loop of update_host: what the host already has is skipped. */
  function AddOne(db: Db, ip: Ip, key: Resource): Db {
    var h := FindIp(db.hosts, ip);
    if h < |db.hosts| && HostHas(db, h, key) then db else AddFile(db, key, ip)
  }

  function AddMissing(db: Db, ip: Ip, keys: seq<Resource>): Db
    decreases |keys|
  {
    if keys == [] then db else AddMissing(AddOne(db, ip, keys[0]), ip, keys[1..])
  }

  function UpdateHost(db: Db, ip: Ip, keys: seq<Resource>): Db { AddMissing(WithHost(db, ip), ip, keys) }

  /** The loop of revoke_resource: the resource leaves the list of every host it points to. */
  function Disown(hs: seq<HostEntry>, ptrs: seq<HostPtr>, r: nat): (hs': seq<HostEntry>)
    ensures |hs'| == |hs|
    decreases |ptrs|
  {
    if ptrs == [] then hs
    else
      var i := Lock(hs, ptrs[0]);
      if i == |hs| then hs
      else Disown(hs[i := hs[i].(possessed := Without(hs[i].possessed, r))], ptrs[1..], r)
  }

  /** revoke_resource; the resource keeps its own list of hosts. */
  function Revoke(db: Db, key: Resource): Outcome {
    var r := FindResource(db.resources, key);
    if r == |db.resources| then Done(db, false)
    else if exists p | p in db.resources[r].hosts :: !Live(db, p) then NullDereference
    else Done(db.(resources := db.resources[r := db.resources[r].(invalidated := true)],
                  hosts := Disown(db.hosts, db.resources[r].hosts, r)), true)
  }

  /** The loop of remove_host: the pointer leaves the list of every resource the host possesses. */
  function Forget(rs: seq<ResourceEntry>, owned: seq<nat>, p: HostPtr): (rs': seq<ResourceEntry>)
    ensures |rs'| == |rs|
    decreases |owned|
  {
    if owned == [] then rs
    else if owned[0] < |rs| then
      Forget(rs[owned[0] := rs[owned[0]].(hosts := Without(rs[owned[0]].hosts, p))], owned[1..], p)
    else Forget(rs, owned[1..], p)
  }

  /** remove_host of a stored host; localhost is never removed. */
  function RemoveHost(db: Db, ip: Ip): Db {
    var h := FindIp(db.hosts, ip);
    if h == 0 || h == |db.hosts| then db
    else db.(resources := Forget(db.resources, db.hosts[h].possessed, db.hosts[h].ptr),
             hosts := db.hosts[..h] + db.hosts[h + 1..])
  }

  // ----- Runs -----

  datatype Op =
    | Add(key: Resource, ip: Ip)
    | Remove(key: Resource, ip: Ip)
    | Beacon(ip: Ip, keys: seq<Resource>)
    | Revocation(key: Resource)
    | Gone(ip: Ip)

  function Exec(db: Db, op: Op): Outcome {
    match op
    case Add(key, ip) => Done(AddFile(db, key, ip), true)
    case Remove(key, ip) => RemoveFile(db, key, ip)
    case Beacon(ip, keys) => Done(UpdateHost(db, ip, keys), true)
    case Revocation(key) => Revoke(db, key)
    case Gone(ip) => Done(RemoveHost(db, ip), true)
  }

  function ExecAll(db: Db, ops: seq<Op>): Outcome
    decreases |ops|
  {
    if ops == [] then Done(db, true)
    else
      match Exec(db, ops[0])
      case Done(db1, _) => ExecAll(db1, ops[1..])
      case NullDereference => NullDereference
  }
}
