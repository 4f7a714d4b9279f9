/** Resource_Database: the object whose vectors the operations update in place. */
module ResourceDatabases {
  import opened Bytes
  import opened ResourceHeaders
  import opened Database
  import opened DatabaseInvariants
  import opened DatabaseTheorems

  lemma PossessedStored(db: Db, h: nat)
    requires Inv(db) && h < |db.hosts|
    ensures forall j: nat | j < |db.hosts[h].possessed| :: db.hosts[h].possessed[j] < |db.resources|
  {
    var possessed := db.hosts[h].possessed;
    forall j: nat | j < |possessed| ensures possessed[j] < |db.resources| {
      assert possessed[j] in multiset(possessed);
      assert Possessed(db, h, possessed[j]) > 0;
    }
  }

  /** What localhost announces, in list order and with repetitions. */
  ghost function Advertised(db: Db): seq<Resource>
    requires Inv(db)
  {
    PossessedStored(db, 0);
    var possessed := db.hosts[0].possessed;
    seq(|possessed|, i requires 0 <= i < |possessed| => db.resources[possessed[i]].key)
  }

  function Image<A, B>(f: A -> B, s: seq<A>): (t: seq<B>)
    ensures |t| == |s| && forall i: nat | i < |s| :: t[i] == f(s[i])
  {
    seq(|s|, i requires 0 <= i < |s| => f(s[i]))
  }

  function Headers(keys: seq<Resource>): seq<seq<Byte>> { Image(Header, keys) }

  /** Localhost announces exactly what the relation gives it. */
  lemma AdvertisedIsRel(db: Db, key: Resource)
    requires Inv(db)
    ensures key in Advertised(db) <==> (key, db.hosts[0].ip) in Rel(db)
  {
    var possessed, keys := db.hosts[0].possessed, Advertised(db);
    PossessedStored(db, 0);
    RelIsHas(db);
    HostHasIsHas(db, 0, key);
    if key in keys {
      var i: nat :| i < |keys| && keys[i] == key;
      assert possessed[i] in possessed;
    }
    if r: nat :| r < |db.resources| && r in possessed && db.resources[r].key == key {
      var i: nat :| i < |possessed| && possessed[i] == r;
      assert keys[i] == key;
    }
  }

  function Disowned(hs: seq<HostEntry>, p: HostPtr, r: nat): seq<HostEntry>
    requires Lock(hs, p) < |hs|
  {
    var h := Lock(hs, p);
    hs[h := hs[h].(possessed := Without(hs[h].possessed, r))]
  }

  /** One round of the loop of revoke_resource. */
  lemma DisownFirst(hs: seq<HostEntry>, ptrs: seq<HostPtr>, i: nat, r: nat)
    requires i < |ptrs| && Lock(hs, ptrs[i]) < |hs|
    ensures Disown(hs, ptrs[i..], r) == Disown(Disowned(hs, ptrs[i], r), ptrs[i + 1..], r)
  {
    assert ptrs[i..][0] == ptrs[i] && ptrs[i..][1..] == ptrs[i + 1..];
  }

  class ResourceDatabase {
    var resources: seq<ResourceEntry>
    var hosts: seq<HostEntry>
    var next: HostPtr

    function Value(): Db
      reads this
    {
      Db(resources, hosts, next)
    }

    ghost predicate Valid()
      reads this
    {
      Inv(Value())
    }

    constructor (local: Ip)
      ensures Valid() && Value() == NewDb(local)
      ensures Rel(Value()) == {}
    {
      resources, hosts, next := [], [HostEntry(0, local, [])], 1;
      new;
      NewDbInv(local);
    }

    /** add_file_internal, step by step. */
    method AddFile(key: Resource, ip: Ip)
      requires Valid()
      modifies this
      ensures Valid() && Value() == Database.AddFile(old(Value()), key, ip)
    {
      ghost var before := Value();
      var r := FindResource(resources, key);
      if r == |resources| {
        resources := resources + [ResourceEntry(key, false, [])];
      }
      var h := FindIp(hosts, ip);
      if h == |hosts| {
        hosts, next := hosts + [HostEntry(next, ip, [])], next + 1;
      }
      assert Value() == WithHost(WithResource(before, key), ip);
      assert r == FindResource(resources, key) && h == FindIp(hosts, ip);
      var ptr := hosts[h].ptr;
      resources := resources[r := resources[r].(hosts := resources[r].hosts + [ptr])];
      hosts := hosts[h := hosts[h].(possessed := hosts[h].possessed + [r])];
      AddFileKeeps(before, key, ip);
    }

    /** remove_file; `crashed` when the search follows a dead pointer. */
    method RemoveFile(key: Resource, ip: Ip) returns (removed: bool, crashed: bool)
      requires Valid()
      modifies this
      ensures Valid()
      ensures crashed == Database.RemoveFile(old(Value()), key, ip).NullDereference?
      ensures crashed ==> Value() == old(Value())
      ensures !crashed ==> Done(Value(), removed) == Database.RemoveFile(old(Value()), key, ip)
    {
      removed, crashed := false, false;
      ghost var before := Value();
      var r := FindResource(resources, key);
      if r < |resources| {
        match FindHolder(hosts, resources[r].hosts, ip)
        case Holder(h) =>
          var ptr := hosts[h].ptr;
          hosts := hosts[h := hosts[h].(possessed := Without<nat>(hosts[h].possessed, r))];
          resources := resources[r := resources[r].(hosts := Without<nat>(resources[r].hosts, ptr))];
          removed := true;
          UnlinkKeeps(before, r, h);
        case NoHolder =>
        case Dangling => crashed := true;
      }
    }

    /** update_host, called for each beacon. */
    method UpdateHost(ip: Ip, keys: seq<Resource>)
      requires Valid()
      modifies this
      ensures Valid() && Value() == Database.UpdateHost(old(Value()), ip, keys)
    {
      EnsureHost(ip);
      ghost var db := Value();
      var i := 0;
      while i < |keys|
        invariant i <= |keys| && Valid()
        invariant AddMissing(Value(), ip, keys[i..]) == AddMissing(db, ip, keys)
      {
        AddIfMissing(keys[i], ip);
        assert keys[i..][1..] == keys[i + 1..];
        i := i + 1;
      }
    }

    method EnsureHost(ip: Ip)
      requires Valid()
      modifies this
      ensures Valid() && Value() == WithHost(old(Value()), ip)
    {
      WithHostKeeps(Value(), ip);
      if FindIp(hosts, ip) == |hosts| {
        hosts, next := hosts + [HostEntry(next, ip, [])], next + 1;
      }
    }

    method AddIfMissing(key: Resource, ip: Ip)
      requires Valid()
      modifies this
      ensures Valid() && Value() == AddOne(old(Value()), ip, key)
    {
      var h := FindIp(hosts, ip);
      if h == |hosts| || !HostHas(Value(), h, key) {
        AddFile(key, ip);
      }
    }

    /** revoke_resource: the flag, then the loop over the hosts in possession. */
    method RevokeResource(key: Resource) returns (crashed: bool)
      requires Valid()
      modifies this
      ensures crashed == Revoke(old(Value()), key).NullDereference?
      ensures !crashed ==> Valid() && Value() == Revoke(old(Value()), key).db
    {
      crashed := false;
      ghost var before := Value();
      var r := FindResource(resources, key);
      if r < |resources| {
        resources := resources[r := resources[r].(invalidated := true)];
        crashed := DisownAll(resources[r].hosts, r);
      }
      if !crashed { RevokeKeeps(before, key); }
    }

    /** it.lock()->remove_resource, for one pointer of the list. */
    method DisownOne(p: HostPtr, r: nat) returns (crashed: bool)
      modifies this`hosts
      ensures crashed == (Lock(old(hosts), p) == |old(hosts)|)
      ensures SameHosts(old(hosts), hosts)
      ensures !crashed ==> hosts == Disowned(old(hosts), p, r)
    {
      var h := Lock(hosts, p);
      crashed := h == |hosts|;
      if !crashed {
        hosts := hosts[h := hosts[h].(possessed := Without<nat>(hosts[h].possessed, r))];
      }
    }

    method DisownAll(ptrs: seq<HostPtr>, r: nat) returns (crashed: bool)
      modifies this`hosts
      ensures crashed == exists p :: p in ptrs && Lock(old(hosts), p) == |old(hosts)|
      ensures !crashed ==> hosts == Disown(old(hosts), ptrs, r)
    {
      ghost var before := hosts;
      crashed := false;
      var i := 0;
      while i < |ptrs|
        invariant i <= |ptrs|
        invariant SameHosts(before, hosts)
        invariant forall j: nat | j < i :: Lock(before, ptrs[j]) < |before|
        invariant Disown(hosts, ptrs[i..], r) == Disown(before, ptrs, r)
      {
        SameHostsLock(before, hosts);
        ghost var hs := hosts;
        crashed := DisownOne(ptrs[i], r);
        if crashed {
          assert ptrs[i] in ptrs && Lock(before, ptrs[i]) == |before|;
          return;
        }
        DisownFirst(hs, ptrs, i, r);
        i := i + 1;
      }
    }

    /** remove_host of the stored host with this address. */
    method RemoveHost(ip: Ip)
      requires Valid() && FindIp(hosts, ip) < |hosts|
      modifies this
      ensures Valid() && Value() == Database.RemoveHost(old(Value()), ip)
    {
      RemoveHostKeeps(Value(), ip);
      var h := FindIp(hosts, ip);
      if h != 0 {
        PossessedStored(Value(), h);
        ForgetAll(hosts[h].possessed, hosts[h].ptr);
        hosts := hosts[..h] + hosts[h + 1..];
      }
    }

    method ForgetAll(owned: seq<nat>, ptr: HostPtr)
      requires forall j: nat | j < |owned| :: owned[j] < |resources|
      modifies this`resources
      ensures resources == Forget(old(resources), owned, ptr)
    {
      ghost var before := resources;
      var i := 0;
      while i < |owned|
        invariant i <= |owned| && |resources| == |before|
        invariant Forget(resources, owned[i..], ptr) == Forget(before, owned, ptr)
      {
        var r := owned[i];
        resources := resources[r := resources[r].(hosts := Without<nat>(resources[r].hosts, ptr))];
        assert owned[i..][1..] == owned[i + 1..];
        i := i + 1;
      }
    }

    /** has_file: a search through localhost's list. */
    method HasFile(key: Resource) returns (has: bool)
      requires Valid()
      ensures has <==> (key, hosts[0].ip) in Rel(Value())
    {
      var possessed, i := hosts[0].possessed, 0;
      PossessedStored(Value(), 0);
      ghost var keys := Advertised(Value());
      has := false;
      while i < |possessed|
        invariant i <= |possessed|
        invariant has <==> key in keys[..i]
      {
        assert keys[..i + 1] == keys[..i] + [keys[i]];
        if resources[possessed[i]].key == key { has := true; }
        i := i + 1;
      }
      assert keys[..i] == keys;
      AdvertisedIsRel(Value(), key);
    }

    /** generate_database_headers: one header per entry of localhost's list. */
    method GenerateDatabaseHeaders() returns (headers: seq<seq<Byte>>)
      requires Valid() && forall r: nat | r < |resources| :: |resources[r].key.name| <= HEADER_SIZE
      ensures headers == Headers(Advertised(Value()))
    {
      var possessed, i := hosts[0].possessed, 0;
      PossessedStored(Value(), 0);
      headers := [];
      while i < |possessed|
        invariant i <= |possessed| && |headers| == i
        invariant forall j: nat | j < i :: headers[j] == Header(resources[possessed[j]].key)
      {
        var header := GenerateResourceHeader(resources[possessed[i]].key);
        headers := headers + [header[..]];
        i := i + 1;
      }
    }
  }
}
