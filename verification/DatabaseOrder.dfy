/** The order of a resource's list of hosts, told from the history: which removals follow a dead pointer. */
module DatabaseOrder {
  import opened ResourceHeaders
  import opened Database
  import opened DatabaseInvariants
  import opened DatabaseTheorems

  function ListOf(db: Db, key: Resource): seq<HostPtr> {
    var r := FindResource(db.resources, key);
    if r < |db.resources| then db.resources[r].hosts else []
  }

  /** The pointer of the stored host with that address, or else one that is in no list. */
  function PtrOf(db: Db, ip: Ip): HostPtr {
    var h := FindIp(db.hosts, ip);
    if h < |db.hosts| then db.hosts[h].ptr else db.next
  }

  /** `p` is in the list, and `q` is not before it. */
  predicate Leads(s: seq<HostPtr>, p: HostPtr, q: HostPtr) {
    s != [] && (s[0] == p || (s[0] != q && Leads(s[1..], p, q)))
  }

  ghost predicate Precedes(db: Db, key: Resource, a: Ip, b: Ip) {
    Leads(ListOf(db, key), PtrOf(db, a), PtrOf(db, b))
  }

  /** A search for the host with that address meets a dead pointer first. */
  ghost predicate DeadFirst(db: Db, key: Resource, ip: Ip) {
    exists p: HostPtr :: Leads(ListOf(db, key), p, PtrOf(db, ip)) && !Live(db, p)
  }

  // ----- Lists -----

  lemma {:induction false} LeadsIn(s: seq<HostPtr>, p: HostPtr, q: HostPtr)
    ensures Leads(s, p, q) ==> p in s
    ensures q !in s ==> (Leads(s, p, q) <==> p in s)
  {
    if s == [] {
    } else {
      LeadsIn(s[1..], p, q);
    }
  }

  lemma {:induction false} LeadsAppend(s: seq<HostPtr>, x: HostPtr, p: HostPtr, q: HostPtr)
    requires p != q
    ensures Leads(s + [x], p, q) <==> Leads(s, p, q) || (x == p && q !in s)
  {
    if s == [] {
      assert s + [x] == [x] && [x][1..] == [];
    } else {
      assert (s + [x])[0] == s[0] && (s + [x])[1..] == s[1..] + [x];
      LeadsAppend(s[1..], x, p, q);
      if s[0] == p { assert Leads(s, p, q); }
    }
  }

  lemma {:induction false} LeadsWithout(s: seq<HostPtr>, x: HostPtr, p: HostPtr, q: HostPtr)
    requires p != q
    ensures Leads(Without(s, x), p, q) <==> p != x && if x == q then p in s else Leads(s, p, q)
  {
    if s == [] {
    } else {
      LeadsWithout(s[1..], x, p, q);
      if s[0] != x {
        var w := [s[0]] + Without(s[1..], x);
        assert Without(s, x) == w && w[1..] == Without(s[1..], x);
      }
    }
  }

  lemma {:induction false} WithoutTwice(s: seq<HostPtr>, x: HostPtr)
    ensures Without(Without(s, x), x) == Without(s, x)
  {
    if s == [] {
    } else {
      WithoutTwice(s[1..], x);
      if s[0] != x {
        var w := [s[0]] + Without(s[1..], x);
        assert Without(s, x) == w && w[1..] == Without(s[1..], x);
      }
    }
  }

  lemma InList(db: Db, key: Resource)
    ensures forall p: HostPtr :: p in ListOf(db, key) <==> Listed(db, FindResource(db.resources, key), p) > 0
  {
  }

  lemma NextUnlisted(db: Db, key: Resource)
    requires Inv(db)
    ensures forall p: HostPtr | p in ListOf(db, key) :: p < db.next
  {
    InList(db, key);
  }

  lemma ListsIn(db: Db, key: Resource, ip: Ip)
    requires Inv(db)
    ensures Lists(db, key, ip) <==> PtrOf(db, ip) in ListOf(db, key)
  {
    InList(db, key);
    NextUnlisted(db, key);
  }

  lemma DanglesIn(db: Db, key: Resource)
    ensures Dangles(db, key) <==> exists p: HostPtr :: p in ListOf(db, key) && !Live(db, p)
  {
    InList(db, key);
  }

  /** Stored hosts have pointers of their own, and a host that is not stored has an unlisted one. */
  lemma PtrsDiffer(db: Db, a: Ip, b: Ip)
    requires Inv(db) && a != b
    ensures PtrOf(db, a) == PtrOf(db, b) ==> PtrOf(db, a) == db.next
    ensures PtrOf(db, a) == db.next || Live(db, PtrOf(db, a))
  {
    var h := FindIp(db.hosts, a);
    if h < |db.hosts| { LockIs(db, h); }
  }

  lemma PtrIs(db: Db, h: nat, ip: Ip)
    requires Inv(db) && h < |db.hosts|
    ensures db.hosts[h].ptr == PtrOf(db, ip) <==> db.hosts[h].ip == ip
  {
    var g := FindIp(db.hosts, ip);
    if g < |db.hosts| && g != h {
      assert db.hosts[g].ptr != db.hosts[h].ptr;
    }
  }

  /** The search of remove_file meets a dead pointer first. */
  lemma {:induction false} SearchDangles(db: Db, ptrs: seq<HostPtr>, ip: Ip)
    requires Inv(db)
    ensures FindHolder(db.hosts, ptrs, ip).Dangling? <==>
              exists p: HostPtr :: Leads(ptrs, p, PtrOf(db, ip)) && !Live(db, p)
  {
    if ptrs == [] {
    } else {
      var x, q := ptrs[0], PtrOf(db, ip);
      SearchDangles(db, ptrs[1..], ip);
      var h := Lock(db.hosts, x);
      if h == |db.hosts| {
        assert Leads(ptrs, x, q) && !Live(db, x);
      } else {
        assert x == q <==> db.hosts[h].ip == ip by { PtrIs(db, h, ip); }
        forall p: HostPtr | !Live(db, p) ensures Leads(ptrs, p, q) <==> x != q && Leads(ptrs[1..], p, q) {
        }
      }
    }
  }

  // ----- What each operation does to the order -----

  /** Nothing about the list or its pointers changes but the pointers of hosts that are not in it. */
  ghost predicate SameList(db: Db, db': Db, key: Resource) {
    && ListOf(db', key) == ListOf(db, key)
    && (forall p | p in ListOf(db, key) :: Live(db', p) <==> Live(db, p))
    && forall i: Ip :: PtrOf(db', i) == PtrOf(db, i)
                       || (PtrOf(db', i) !in ListOf(db, key) && PtrOf(db, i) !in ListOf(db, key))
  }

  lemma SameOrder(db: Db, db': Db, key: Resource, a: Ip, b: Ip)
    requires SameList(db, db', key)
    ensures Precedes(db', key, a, b) <==> Precedes(db, key, a, b)
  {
    var s := ListOf(db, key);
    LeadsIn(s, PtrOf(db, a), PtrOf(db, b));
    LeadsIn(s, PtrOf(db, a), PtrOf(db', b));
    LeadsIn(s, PtrOf(db', a), PtrOf(db', b));
  }

  lemma SameDeadFirst(db: Db, db': Db, key: Resource, ip: Ip)
    requires SameList(db, db', key)
    ensures DeadFirst(db', key, ip) <==> DeadFirst(db, key, ip)
  {
    var s := ListOf(db, key);
    forall p: HostPtr
      ensures Leads(s, p, PtrOf(db', ip)) && !Live(db', p) <==> Leads(s, p, PtrOf(db, ip)) && !Live(db, p)
    {
      LeadsIn(s, p, PtrOf(db, ip));
      LeadsIn(s, p, PtrOf(db', ip));
    }
  }

  lemma WithResourceSame(db: Db, key: Resource, k: Resource)
    ensures SameList(db, WithResource(db, key), k)
  {
    if FindResource(db.resources, key) == |db.resources| {
      FindAppended(db.resources, ResourceEntry(key, false, []), k);
    }
  }

  lemma WithHostSame(db: Db, ip: Ip, k: Resource)
    requires Inv(db)
    ensures SameList(db, WithHost(db, ip), k)
    ensures PtrOf(WithHost(db, ip), ip) == PtrOf(db, ip)
  {
    if FindIp(db.hosts, ip) == |db.hosts| {
      var e := HostEntry(db.next, ip, []);
      var db' := WithHost(db, ip);
      NextUnlisted(db, k);
      forall i: Ip { FindIpAppended(db.hosts, e, i); }
      forall p | p in ListOf(db, k) ensures Live(db', p) <==> Live(db, p) {
        if Live(db, p) { assert db'.hosts[Lock(db.hosts, p)].ptr == p; }
        if Live(db', p) { assert db.hosts[Lock(db'.hosts, p)].ptr == p; }
      }
    }
  }

  /** The list after `add_file_internal`: the host's pointer at the end. */
  lemma LinkList(db: Db, r: nat, h: nat, k: Resource)
    requires Inv(db) && r < |db.resources| && h < |db.hosts|
    ensures var db' := Link(db, r, h);
            && ListOf(db', k) == ListOf(db, k) + (if k == db.resources[r].key then [db.hosts[h].ptr] else [])
            && (forall i: Ip :: PtrOf(db', i) == PtrOf(db, i)) && (forall p: HostPtr :: Live(db', p) <==> Live(db, p))
  {
    var db' := Link(db, r, h);
    LinkEffect(db, r, h);
    SameHostsLock(db.hosts, db'.hosts);
    SameKeysFind(db.resources, db'.resources);
  }

  lemma AddFileList(db: Db, key: Resource, ip: Ip) returns (db1: Db, r: nat, h: nat)
    requires Inv(db)
    ensures Inv(db1) && r < |db1.resources| && h < |db1.hosts| && AddFile(db, key, ip) == Link(db1, r, h)
    ensures db1.resources[r].key == key && db1.hosts[h].ip == ip && db1.hosts[h].ptr == PtrOf(db1, ip)
    ensures forall k: Resource, a: Ip, b: Ip :: Precedes(db1, k, a, b) <==> Precedes(db, k, a, b)
    ensures forall k: Resource, i: Ip :: DeadFirst(db1, k, i) <==> DeadFirst(db, k, i)
    ensures forall k: Resource, i: Ip :: Lists(db1, k, i) <==> Lists(db, k, i)
  {
    var db0 := WithResource(db, key);
    db1 := WithHost(db0, ip);
    r, h := FindResource(db1.resources, key), FindIp(db1.hosts, ip);
    WithResourceKeeps(db, key);
    WithHostKeeps(db0, ip);
    forall k: Resource, a: Ip, b: Ip ensures Precedes(db1, k, a, b) <==> Precedes(db, k, a, b) {
      WithResourceSame(db, key, k);
      WithHostSame(db0, ip, k);
      SameOrder(db, db0, k, a, b);
      SameOrder(db0, db1, k, a, b);
    }
    forall k: Resource, i: Ip
      ensures (DeadFirst(db1, k, i) <==> DeadFirst(db, k, i)) && (Lists(db1, k, i) <==> Lists(db, k, i))
    {
      WithResourceSame(db, key, k);
      WithHostSame(db0, ip, k);
      SameDeadFirst(db, db0, k, i);
      SameDeadFirst(db0, db1, k, i);
      WithResourceLists(db, key, k, i);
      WithHostLists(db0, ip, k, i);
    }
  }

  lemma AddFilePrecedes(db: Db, key: Resource, ip: Ip, k: Resource, a: Ip, b: Ip)
    requires Inv(db) && a != b
    ensures Precedes(AddFile(db, key, ip), k, a, b) <==>
              Precedes(db, k, a, b) || (k == key && ip == a && !Lists(db, k, b))
  {
    var db1, r, h := AddFileList(db, key, ip);
    LinkList(db1, r, h, k);
    var s, x, p, q := ListOf(db1, k), db1.hosts[h].ptr, PtrOf(db1, a), PtrOf(db1, b);
    ListsIn(db1, k, b);
    PtrsDiffer(db1, a, b);
    PtrIs(db1, h, a);
    if k == key {
      NextUnlisted(db1, k);
      LeadsIn(s, p, q);
      LeadsIn(s + [x], p, q);
      if p != q { LeadsAppend(s, x, p, q); }
    } else {
      assert s + [] == s;
    }
  }

  lemma AddFileDeadFirst(db: Db, key: Resource, ip: Ip, k: Resource, i: Ip)
    requires Inv(db)
    ensures DeadFirst(AddFile(db, key, ip), k, i) <==> DeadFirst(db, k, i)
  {
    var db1, r, h := AddFileList(db, key, ip);
    LinkList(db1, r, h, k);
    var s, x, q := ListOf(db1, k), db1.hosts[h].ptr, PtrOf(db1, i);
    LockIs(db1, h);
    if k == key {
      NextUnlisted(db1, k);
      PtrsDiffer(db1, i, i + 1);
      forall p: HostPtr | !Live(db1, p) ensures Leads(s + [x], p, q) <==> Leads(s, p, q) {
        LeadsIn(s, p, q);
        LeadsIn(s + [x], p, q);
        if p != q { LeadsAppend(s, x, p, q); }
      }
    } else {
      assert s + [] == s;
    }
  }

  lemma AddOnePrecedes(db: Db, ip: Ip, key: Resource, k: Resource, a: Ip, b: Ip)
    requires Inv(db) && a != b
    ensures Precedes(AddOne(db, ip, key), k, a, b) <==>
              Precedes(db, k, a, b) || (k == key && ip == a && !Lists(db, k, b))
    ensures ip == a ==> (Lists(AddOne(db, ip, key), k, b) <==> Lists(db, k, b))
  {
    var h := FindIp(db.hosts, ip);
    AddFilePrecedes(db, key, ip, k, a, b);
    AddFileLists(db, key, ip, k, b);
    if h < |db.hosts| && HostHas(db, h, key) && k == key && ip == a {
      HostHasIsHas(db, h, key);
      HasIsListed(db, key, ip);
      ListsIn(db, k, a);
      ListsIn(db, k, b);
      LeadsIn(ListOf(db, k), PtrOf(db, a), PtrOf(db, b));
    }
  }

  lemma {:induction false} AddMissingPrecedes(db: Db, ip: Ip, keys: seq<Resource>, k: Resource, a: Ip, b: Ip)
    requires Inv(db) && a != b
    ensures Precedes(AddMissing(db, ip, keys), k, a, b) <==>
              Precedes(db, k, a, b) || (k in keys && ip == a && !Lists(db, k, b))
    decreases |keys|
  {
    if keys == [] {
    } else {
      var db1 := AddOne(db, ip, keys[0]);
      AddFileKeeps(db, keys[0], ip);
      AddOnePrecedes(db, ip, keys[0], k, a, b);
      AddMissingPrecedes(db1, ip, keys[1..], k, a, b);
    }
  }

  lemma {:induction false} AddMissingDeadFirst(db: Db, ip: Ip, keys: seq<Resource>, k: Resource, i: Ip)
    requires Inv(db)
    ensures DeadFirst(AddMissing(db, ip, keys), k, i) <==> DeadFirst(db, k, i)
    decreases |keys|
  {
    if keys == [] {
    } else {
      AddFileKeeps(db, keys[0], ip);
      AddFileDeadFirst(db, keys[0], ip, k, i);
      AddMissingDeadFirst(AddOne(db, ip, keys[0]), ip, keys[1..], k, i);
    }
  }

  /** The list after a removal: the host's pointer is gone from it. */
  lemma UnlinkList(db: Db, r: nat, h: nat, k: Resource)
    requires Inv(db) && r < |db.resources| && h < |db.hosts|
    ensures var db' := Unlink(db, r, h);
            && ListOf(db', k) == (if k == db.resources[r].key then Without(ListOf(db, k), db.hosts[h].ptr) else ListOf(db, k))
            && (forall i: Ip :: PtrOf(db', i) == PtrOf(db, i)) && (forall p: HostPtr :: Live(db', p) <==> Live(db, p))
  {
    var db' := Unlink(db, r, h);
    UnlinkEffect(db, r, h);
    SameHostsLock(db.hosts, db'.hosts);
    SameKeysFind(db.resources, db'.resources);
  }

  /** Who precedes whom once `gone` is out of the list. */
  ghost predicate PrecedesWithout(db: Db, k: Resource, gone: Ip, a: Ip, b: Ip) {
    a != gone && if b == gone then Lists(db, k, a) else Precedes(db, k, a, b)
  }

  /** A host that is not in the list can be taken out of it. */
  lemma PrecedesUnlisted(db: Db, k: Resource, gone: Ip, a: Ip, b: Ip)
    requires Inv(db) && !Lists(db, k, gone)
    ensures Precedes(db, k, a, b) <==> PrecedesWithout(db, k, gone, a, b)
  {
    ListsIn(db, k, gone);
    ListsIn(db, k, a);
    LeadsIn(ListOf(db, k), PtrOf(db, a), PtrOf(db, b));
  }

  lemma LeadsTakenOut(s: seq<HostPtr>, x: HostPtr, p: HostPtr, q: HostPtr)
    requires p != q || p !in s
    ensures Leads(Without(s, x), p, q) <==> p != x && if x == q then p in s else Leads(s, p, q)
  {
    if p != q {
      LeadsWithout(s, x, p, q);
    } else {
      assert p in Without(s, x) ==> p in multiset(Without(s, x));
      assert p !in multiset(s);
      LeadsIn(s, p, q);
      LeadsIn(Without(s, x), p, q);
    }
  }

  lemma UnlinkPrecedes(db: Db, r: nat, h: nat, a: Ip, b: Ip)
    requires Inv(db) && r < |db.resources| && h < |db.hosts| && a != b
    ensures var k := db.resources[r].key;
            Precedes(Unlink(db, r, h), k, a, b) <==> PrecedesWithout(db, k, db.hosts[h].ip, a, b)
  {
    var k, x := db.resources[r].key, db.hosts[h].ptr;
    var s, p, q := ListOf(db, k), PtrOf(db, a), PtrOf(db, b);
    UnlinkList(db, r, h, k);
    ListsIn(db, k, a);
    PtrIs(db, h, a);
    PtrIs(db, h, b);
    PtrsDiffer(db, a, b);
    NextUnlisted(db, k);
    assert p != q || p !in s;
    LeadsTakenOut(s, x, p, q);
  }

  lemma RemoveFilePrecedes(db: Db, key: Resource, ip: Ip, k: Resource, a: Ip, b: Ip)
    requires Inv(db) && RemoveFile(db, key, ip).Done? && a != b
    ensures Precedes(RemoveFile(db, key, ip).db, k, a, b) <==>
              if k == key then PrecedesWithout(db, k, ip, a, b) else Precedes(db, k, a, b)
  {
    var r := FindResource(db.resources, key);
    RemoveResult(db, key, ip);
    if RemoveFile(db, key, ip).result {
      var h := FindHolder(db.hosts, db.resources[r].hosts, ip).host;
      UnlinkList(db, r, h, k);
      UnlinkPrecedes(db, r, h, a, b);
    } else if k == key {
      PrecedesUnlisted(db, k, ip, a, b);
    }
  }

  /** For a host that is not in the list any dead pointer comes first. */
  lemma DeadFirstUnlisted(db: Db, k: Resource, i: Ip)
    requires PtrOf(db, i) !in ListOf(db, k)
    ensures DeadFirst(db, k, i) <==> Dangles(db, k)
  {
    DanglesIn(db, k);
    forall p: HostPtr { LeadsIn(ListOf(db, k), p, PtrOf(db, i)); }
  }

  lemma {:induction false} SelfLeads(s: seq<HostPtr>, p: HostPtr)
    ensures Leads(s, p, p) <==> p in s
  {
    if s == [] {
    } else {
      SelfLeads(s[1..], p);
    }
  }

  /** Taking out a pointer that is neither of the two. */
  lemma DeadLeadsWithout(s: seq<HostPtr>, x: HostPtr, p: HostPtr, q: HostPtr)
    requires x != p && x != q
    ensures Leads(Without(s, x), p, q) <==> Leads(s, p, q)
  {
    if p != q {
      LeadsWithout(s, x, p, q);
    } else {
      SelfLeads(s, p);
      SelfLeads(Without(s, x), p);
      assert p in Without(s, x) <==> p in multiset(Without(s, x));
      assert p in s <==> p in multiset(s);
    }
  }

  lemma UnlinkDeadFirst(db: Db, r: nat, h: nat, i: Ip)
    requires Inv(db) && r < |db.resources| && h < |db.hosts| && i != db.hosts[h].ip
    ensures var k := db.resources[r].key; DeadFirst(Unlink(db, r, h), k, i) <==> DeadFirst(db, k, i)
  {
    var k, x := db.resources[r].key, db.hosts[h].ptr;
    var s, q := ListOf(db, k), PtrOf(db, i);
    UnlinkList(db, r, h, k);
    PtrIs(db, h, i);
    LockIs(db, h);
    PtrsDiffer(db, i, i + 1);
    NextUnlisted(db, k);
    forall p: HostPtr | !Live(db, p) ensures Leads(Without(s, x), p, q) <==> Leads(s, p, q) {
      DeadLeadsWithout(s, x, p, q);
    }
  }

  lemma RemoveFileDeadFirst(db: Db, key: Resource, ip: Ip, k: Resource, i: Ip)
    requires Inv(db) && RemoveFile(db, key, ip).Done?
    ensures var db' := RemoveFile(db, key, ip).db;
            DeadFirst(db', k, i) <==> if (k, i) == (key, ip) then Dangles(db', k) else DeadFirst(db, k, i)
  {
    var r, db' := FindResource(db.resources, key), RemoveFile(db, key, ip).db;
    RemoveResult(db, key, ip);
    ExecKeeps(db, Remove(key, ip));
    RemoveFileLists(db, key, ip, k, i);
    if (k, i) == (key, ip) {
      ListsIn(db', k, i);
      DeadFirstUnlisted(db', k, i);
    } else if RemoveFile(db, key, ip).result {
      var h := FindHolder(db.hosts, db.resources[r].hosts, ip).host;
      UnlinkList(db, r, h, k);
      if k == key { UnlinkDeadFirst(db, r, h, i); }
    }
  }

  lemma RevokeSame(db: Db, key: Resource, k: Resource)
    requires Inv(db) && Revoke(db, key).Done?
    ensures SameList(db, Revoke(db, key).db, k)
  {
    if FindResource(db.resources, key) < |db.resources| {
      var db' := Revoke(db, key).db;
      RevokeEffect(db, key);
      SameHostsLock(db.hosts, db'.hosts);
      SameKeysFind(db.resources, db'.resources);
    }
  }

  lemma {:induction false} ForgetLists(rs: seq<ResourceEntry>, owned: seq<nat>, p: HostPtr, r: nat)
    requires r < |rs|
    ensures Forget(rs, owned, p)[r].hosts == if r in owned then Without(rs[r].hosts, p) else rs[r].hosts
    decreases |owned|
  {
    if owned == [] {
    } else {
      var x := owned[0];
      var rs1 := if x < |rs| then rs[x := rs[x].(hosts := Without(rs[x].hosts, p))] else rs;
      ForgetLists(rs1, owned[1..], p, r);
      WithoutTwice(rs[r].hosts, p);
    }
  }

  /** The list after a host is gone: its pointer is out of it where the host had the resource. */
  lemma RemoveHostList(db: Db, ip: Ip, k: Resource)
    requires Inv(db) && 0 < FindIp(db.hosts, ip) < |db.hosts|
    ensures var db', x := RemoveHost(db, ip), PtrOf(db, ip);
            && ListOf(db', k) == (if Has(db, k, ip) then Without(ListOf(db, k), x) else ListOf(db, k))
  {
    var h, r, db' := FindIp(db.hosts, ip), FindResource(db.resources, k), RemoveHost(db, ip);
    RemoveHostEffect(db, ip);
    SameKeysFind(db.resources, db'.resources);
    if r < |db.resources| {
      ForgetLists(db.resources, db.hosts[h].possessed, db.hosts[h].ptr, r);
      assert r in db.hosts[h].possessed <==> Possessed(db, h, r) > 0;
    }
  }

  lemma ErasePtr(db: Db, db': Db, h: nat, i: Ip)
    requires HostsDistinct(db) && h < |db.hosts|
    requires db'.hosts == db.hosts[..h] + db.hosts[h + 1..] && db'.next == db.next
    ensures PtrOf(db', i) == if i == db.hosts[h].ip then db.next else PtrOf(db, i)
  {
    var a, b := FindIp(db.hosts, i), FindIp(db'.hosts, i);
    EraseFindIp(db.hosts, h, i);
    if a < |db.hosts| && a != h { assert db'.hosts[b] == db.hosts[a]; }
  }

  lemma RemoveHostPtrs(db: Db, ip: Ip)
    requires Inv(db) && 0 < FindIp(db.hosts, ip) < |db.hosts|
    ensures var db', x := RemoveHost(db, ip), PtrOf(db, ip);
            && (forall i: Ip :: PtrOf(db', i) == if i == ip then db.next else PtrOf(db, i))
            && (forall p: HostPtr :: Live(db', p) <==> Live(db, p) && p != x)
  {
    var h, db', x := FindIp(db.hosts, ip), RemoveHost(db, ip), PtrOf(db, ip);
    forall i: Ip ensures PtrOf(db', i) == if i == ip then db.next else PtrOf(db, i) {
      ErasePtr(db, db', h, i);
    }
    EraseKills(db, db', h);
    forall p: HostPtr ensures Live(db', p) <==> Live(db, p) && p != x {
      if p != x { EraseKeepsLive(db, db', h, p); }
    }
  }

  lemma RemoveHostPrecedes(db: Db, ip: Ip, k: Resource, a: Ip, b: Ip)
    requires Inv(db) && a != b
    ensures Precedes(RemoveHost(db, ip), k, a, b) <==>
              if ip == db.hosts[0].ip then Precedes(db, k, a, b) else PrecedesWithout(db, k, ip, a, b)
  {
    var h, db' := FindIp(db.hosts, ip), RemoveHost(db, ip);
    if 0 < h < |db.hosts| {
      RemoveHostKeeps(db, ip);
      RemoveHostPtrs(db, ip);
      RemoveHostList(db, ip, k);
      RemoveHostLists(db, ip, k, a);
      RemoveHostLists(db, ip, k, b);
      ListsIn(db', k, a);
      ListsIn(db', k, b);
      if a == ip || b == ip {
        LeadsIn(ListOf(db', k), PtrOf(db', a), PtrOf(db', b));
      } else {
        PtrIs(db, h, a);
        PtrIs(db, h, b);
        DeadLeadsWithout(ListOf(db, k), PtrOf(db, ip), PtrOf(db, a), PtrOf(db, b));
      }
    } else if h == |db.hosts| {
      PrecedesUnlisted(db, k, ip, a, b);
    }
  }

  lemma GoneDeadFirst(db: Db, ip: Ip, k: Resource, i: Ip)
    requires Inv(db) && 0 < FindIp(db.hosts, ip) < |db.hosts| && i != ip
    ensures DeadFirst(RemoveHost(db, ip), k, i) <==>
              DeadFirst(db, k, i) || (!Has(db, k, ip) && Precedes(db, k, ip, i))
  {
    var h, db' := FindIp(db.hosts, ip), RemoveHost(db, ip);
    var s, x, q := ListOf(db, k), PtrOf(db, ip), PtrOf(db, i);
    RemoveHostPtrs(db, ip);
    RemoveHostList(db, ip, k);
    PtrIs(db, h, i);
    LockIs(db, h);
    forall p: HostPtr | p != x ensures Leads(ListOf(db', k), p, q) <==> Leads(s, p, q) {
      DeadLeadsWithout(s, x, p, q);
    }
    LeadsWithout(s, x, x, q);
  }

  lemma RemoveHostDeadFirst(db: Db, ip: Ip, k: Resource, i: Ip)
    requires Inv(db)
    ensures var db' := RemoveHost(db, ip);
            DeadFirst(db', k, i) <==>
              if ip == db.hosts[0].ip then DeadFirst(db, k, i)
              else if i == ip then Dangles(db', k)
              else DeadFirst(db, k, i) || (!Has(db, k, ip) && Precedes(db, k, ip, i))
  {
    var h, db' := FindIp(db.hosts, ip), RemoveHost(db, ip);
    RemoveHostKeeps(db, ip);
    if ip == db.hosts[0].ip {
    } else if i == ip {
      RemoveHostLists(db, ip, k, i);
      ListsIn(db', k, i);
      DeadFirstUnlisted(db', k, i);
    } else if h == |db.hosts| {
      ListsIn(db, k, ip);
      LeadsIn(ListOf(db, k), PtrOf(db, ip), PtrOf(db, i));
    } else {
      GoneDeadFirst(db, ip, k, i);
    }
  }

  /** The operation takes the host out of the resource's list; a revocation does not. */
  predicate Delists(op: Op, local: Ip, key: Resource, ip: Ip) { !op.Revocation? && Withdraws(op, local, key, ip) }

  lemma ExecPrecedes(db: Db, op: Op, k: Resource, a: Ip, b: Ip)
    requires Inv(db) && Exec(db, op).Done? && a != b
    ensures Precedes(Exec(db, op).db, k, a, b) <==>
              if Announces(op, k, a) then Precedes(db, k, a, b) || !Lists(db, k, b)
              else if Delists(op, db.hosts[0].ip, k, a) then false
              else if Delists(op, db.hosts[0].ip, k, b) then Lists(db, k, a)
              else Precedes(db, k, a, b)
  {
    match op
    case Add(key, ip) => AddFilePrecedes(db, key, ip, k, a, b);
    case Remove(key, ip) => RemoveFilePrecedes(db, key, ip, k, a, b);
    case Beacon(ip, keys) =>
      WithHostKeeps(db, ip);
      WithHostSame(db, ip, k);
      SameOrder(db, WithHost(db, ip), k, a, b);
      WithHostLists(db, ip, k, b);
      AddMissingPrecedes(WithHost(db, ip), ip, keys, k, a, b);
    case Revocation(key) =>
      RevokeSame(db, key, k);
      SameOrder(db, Revoke(db, key).db, k, a, b);
    case Gone(ip) => RemoveHostPrecedes(db, ip, k, a, b);
  }

  lemma ExecDeadFirst(db: Db, op: Op, k: Resource, i: Ip)
    requires Inv(db) && Exec(db, op).Done?
    ensures var db', local := Exec(db, op).db, db.hosts[0].ip;
            DeadFirst(db', k, i) <==>
              if Delists(op, local, k, i) then Dangles(db', k)
              else DeadFirst(db, k, i)
                   || (op.Gone? && op.ip != local && op.ip != i && !Has(db, k, op.ip) && Precedes(db, k, op.ip, i))
  {
    match op
    case Add(key, ip) => AddFileDeadFirst(db, key, ip, k, i);
    case Remove(key, ip) => RemoveFileDeadFirst(db, key, ip, k, i);
    case Beacon(ip, keys) =>
      WithHostKeeps(db, ip);
      WithHostSame(db, ip, k);
      SameDeadFirst(db, WithHost(db, ip), k, i);
      AddMissingDeadFirst(WithHost(db, ip), ip, keys, k, i);
    case Revocation(key) =>
      RevokeSame(db, key, k);
      SameDeadFirst(db, Revoke(db, key).db, k, i);
    case Gone(ip) => RemoveHostDeadFirst(db, ip, k, i);
  }

  // ----- The order told from the history -----

  /** Operation `t` announced the pair, and nothing since, before operation `n`, took it out of the list. */
  ghost predicate ListedFrom(ops: seq<Op>, t: nat, n: nat, local: Ip, key: Resource, ip: Ip) {
    && t < n <= |ops| && Announces(ops[t], key, ip)
    && forall m: nat | t < m < n :: !Delists(ops[m], local, key, ip)
  }

  /** Host `ip`, as of operation `n`, is listed from later than operation `t` on, if at all. */
  ghost predicate NotBy(ops: seq<Op>, t: nat, n: nat, local: Ip, key: Resource, ip: Ip) {
    forall u: nat | ListedFrom(ops, u, n, local, key, ip) :: t < u
  }

  /** As of operation `j`, host `a` was listed from earlier on than host `b` is as of operation `n`. */
  ghost predicate ListedEarlier(ops: seq<Op>, j: nat, a: Ip, n: nat, b: Ip, local: Ip, key: Resource) {
    exists t: nat :: ListedFrom(ops, t, j, local, key, a) && NotBy(ops, t, n, local, key, b)
  }

  ghost predicate ListedNow(ops: seq<Op>, n: nat, local: Ip, key: Resource, ip: Ip) {
    exists t: nat :: ListedFrom(ops, t, n, local, key, ip)
  }

  lemma ListedFromNext(ops: seq<Op>, t: nat, n: nat, local: Ip, key: Resource, ip: Ip)
    requires n < |ops|
    ensures ListedFrom(ops, t, n + 1, local, key, ip) <==>
              if t == n then Announces(ops[n], key, ip)
              else ListedFrom(ops, t, n, local, key, ip) && !Delists(ops[n], local, key, ip)
  {
  }

  /** What is known of a run up to operation `n`. */
  lemma PrefixStep(local: Ip, ops: seq<Op>, n: nat)
    requires n < |ops| && ExecAll(NewDb(local), ops[..n + 1]).Done?
    ensures ExecAll(NewDb(local), ops[..n]).Done?
    ensures var db := ExecAll(NewDb(local), ops[..n]).db;
            && Inv(db) && db.hosts[0].ip == local && Exec(db, ops[n]).Done?
            && ExecAll(NewDb(local), ops[..n + 1]).db == Exec(db, ops[n]).db
  {
    assert ops[..n + 1] == ops[..n] + [ops[n]];
    ExecLast(NewDb(local), ops[..n], ops[n]);
    NewDbInv(local);
    RunRefines(NewDb(local), ops[..n]);
  }

  lemma ListedNowNext(ops: seq<Op>, n: nat, local: Ip, key: Resource, ip: Ip)
    requires n < |ops|
    ensures ListedNow(ops, n + 1, local, key, ip) <==>
              Announces(ops[n], key, ip) || (ListedNow(ops, n, local, key, ip) && !Delists(ops[n], local, key, ip))
  {
    var m := n + 1;
    if t: nat :| ListedFrom(ops, t, m, local, key, ip) {
      ListedFromNext(ops, t, n, local, key, ip);
    }
    if Announces(ops[n], key, ip) { assert ListedFrom(ops, n, n + 1, local, key, ip); }
    if t: nat :| ListedFrom(ops, t, n, local, key, ip) && !Delists(ops[n], local, key, ip) {
      assert ListedFrom(ops, t, n + 1, local, key, ip);
    }
  }

  lemma {:induction false} ListsFrom(local: Ip, ops: seq<Op>, n: nat, key: Resource, ip: Ip)
    requires n <= |ops| && ExecAll(NewDb(local), ops[..n]).Done?
    ensures Lists(ExecAll(NewDb(local), ops[..n]).db, key, ip) <==> ListedNow(ops, n, local, key, ip)
  {
    if n == 0 {
    } else {
      PrefixStep(local, ops, n - 1);
      ListsFrom(local, ops, n - 1, key, ip);
      ExecLists(ExecAll(NewDb(local), ops[..n - 1]).db, ops[n - 1], key, ip);
      ListedNowNext(ops, n - 1, local, key, ip);
    }
  }

  lemma NotByNext(ops: seq<Op>, t: nat, n: nat, local: Ip, key: Resource, ip: Ip)
    requires t <= n < |ops|
    ensures NotBy(ops, t, n + 1, local, key, ip) <==>
              (t == n && !ListedNow(ops, n + 1, local, key, ip))
              || (t < n && (Delists(ops[n], local, key, ip) || NotBy(ops, t, n, local, key, ip)))
  {
    var m := n + 1;
    forall u: nat ensures ListedFrom(ops, u, m, local, key, ip) <==>
                            if u == n then Announces(ops[n], key, ip)
                            else ListedFrom(ops, u, n, local, key, ip) && !Delists(ops[n], local, key, ip)
    {
      ListedFromNext(ops, u, n, local, key, ip);
    }
    if u: nat :| ListedFrom(ops, u, m, local, key, ip) && u <= t {
      assert !NotBy(ops, t, m, local, key, ip);
    }
    if t == n && ListedNow(ops, m, local, key, ip) {
      var u: nat :| ListedFrom(ops, u, m, local, key, ip);
      assert !NotBy(ops, t, m, local, key, ip);
    }
    if u: nat :| ListedFrom(ops, u, n, local, key, ip) && u <= t && !Delists(ops[n], local, key, ip) {
      assert ListedFrom(ops, u, m, local, key, ip);
    }
  }

  /** The order after one more operation, for a host whose own place is fixed. */
  lemma EarlierNext(ops: seq<Op>, j: nat, a: Ip, n: nat, b: Ip, local: Ip, key: Resource)
    requires j <= n < |ops|
    ensures ListedEarlier(ops, j, a, n + 1, b, local, key) <==>
              if Delists(ops[n], local, key, b) then ListedNow(ops, j, local, key, a)
              else ListedEarlier(ops, j, a, n, b, local, key)
  {
    var m := n + 1;
    forall t: nat | ListedFrom(ops, t, j, local, key, a)
      ensures NotBy(ops, t, m, local, key, b) <==>
                Delists(ops[n], local, key, b) || NotBy(ops, t, n, local, key, b)
    {
      NotByNext(ops, t, n, local, key, b);
    }
  }

  /** The same, when the place of the first host is as of now, too. */
  lemma BothNext(ops: seq<Op>, n: nat, a: Ip, b: Ip, local: Ip, key: Resource)
    requires n < |ops| && a != b
    ensures ListedEarlier(ops, n + 1, a, n + 1, b, local, key) <==>
              if Announces(ops[n], key, a) then
                ListedEarlier(ops, n, a, n, b, local, key) || !ListedNow(ops, n, local, key, b)
              else if Delists(ops[n], local, key, a) then false
              else ListedEarlier(ops, n, a, n + 1, b, local, key)
  {
    var m := n + 1;
    EarlierNext(ops, n, a, n, b, local, key);
    ListedNowNext(ops, n, local, key, b);
    NotByNext(ops, n, n, local, key, b);
    if t: nat :| ListedFrom(ops, t, m, local, key, a) && NotBy(ops, t, m, local, key, b) {
      ListedFromNext(ops, t, n, local, key, a);
    }
    if t: nat :| ListedFrom(ops, t, n, local, key, a) && NotBy(ops, t, m, local, key, b) {
      ListedFromNext(ops, t, n, local, key, a);
    }
    if Announces(ops[n], key, a) {
      assert ListedFrom(ops, n, m, local, key, a);
    }
  }

  lemma {:induction false} PrecedesIsHistory(local: Ip, ops: seq<Op>, n: nat, key: Resource, a: Ip, b: Ip)
    requires n <= |ops| && ExecAll(NewDb(local), ops[..n]).Done? && a != b
    ensures Precedes(ExecAll(NewDb(local), ops[..n]).db, key, a, b) <==> ListedEarlier(ops, n, a, n, b, local, key)
  {
    if n == 0 {
    } else {
      PrefixStep(local, ops, n - 1);
      PrecedesIsHistory(local, ops, n - 1, key, a, b);
      ListsFrom(local, ops, n - 1, key, a);
      ListsFrom(local, ops, n - 1, key, b);
      ExecPrecedes(ExecAll(NewDb(local), ops[..n - 1]).db, ops[n - 1], key, a, b);
      BothNext(ops, n - 1, a, b, local, key);
      EarlierNext(ops, n - 1, a, n - 1, b, local, key);
    }
  }

  /** Operation `j` leaves a dead pointer, and its place in the list is before that of host `ip`. */
  ghost predicate DiesBefore(ops: seq<Op>, j: nat, n: nat, local: Ip, key: Resource, ip: Ip)
    requires j < |ops|
  {
    LeavesDangling(ops, j, local, key) && ListedEarlier(ops, j, ops[j].ip, n, ip, local, key)
  }

  ghost predicate SomeDiesBefore(ops: seq<Op>, n: nat, local: Ip, key: Resource, ip: Ip)
    requires n <= |ops|
  {
    exists j: nat :: j < n && DiesBefore(ops, j, n, local, key, ip)
  }

  /** Operation `j` as the state before it shows it. */
  lemma DanglingAt(local: Ip, ops: seq<Op>, j: nat, key: Resource)
    requires j < |ops| && ExecAll(NewDb(local), ops[..j]).Done?
    ensures var db := ExecAll(NewDb(local), ops[..j]).db;
            LeavesDangling(ops, j, local, key) <==>
              ops[j].Gone? && ops[j].ip != local && Lists(db, key, ops[j].ip) && !Has(db, key, ops[j].ip)
    ensures LeavesDangling(ops, j, local, key) ==> ListedNow(ops, j, local, key, ops[j].ip)
  {
    assert ops[..j + 1] == ops[..j] + [ops[j]];
    LeavesDanglingLast(local, ops[..j], ops[j], key);
    LeavesDanglingPrefix(ops, j + 1, j, local, key);
    if ops[j].Gone? { ListsFrom(local, ops, j, key, ops[j].ip); }
  }

  lemma {:induction false} PrefixDone(local: Ip, ops: seq<Op>, n: nat, j: nat)
    requires j <= n <= |ops| && ExecAll(NewDb(local), ops[..n]).Done?
    ensures ExecAll(NewDb(local), ops[..j]).Done?
  {
    if j == n {
    } else {
      assert ops[..n] == ops[..n - 1] + [ops[n - 1]];
      ExecLast(NewDb(local), ops[..n - 1], ops[n - 1]);
      PrefixDone(local, ops, n - 1, j);
    }
  }

  /** A host just taken out of the list is behind every dead pointer in it. */
  lemma AllDiedBefore(local: Ip, ops: seq<Op>, n: nat, key: Resource, ip: Ip)
    requires 0 < n <= |ops| && ExecAll(NewDb(local), ops[..n]).Done? && Delists(ops[n - 1], local, key, ip)
    ensures Dangles(ExecAll(NewDb(local), ops[..n]).db, key) <==> SomeDiesBefore(ops, n, local, key, ip)
  {
    DanglesIsHistory(local, ops[..n], key);
    forall j: nat | j < n
      ensures DiesBefore(ops, j, n, local, key, ip) <==> LeavesDangling(ops[..n], j, local, key)
    {
      LeavesDanglingPrefix(ops, n, j, local, key);
      PrefixDone(local, ops, n, j);
      DanglingAt(local, ops, j, key);
      if LeavesDangling(ops, j, local, key) { EarlierNext(ops, j, ops[j].ip, n - 1, ip, local, key); }
    }
  }

  lemma DiesBeforeLast(local: Ip, ops: seq<Op>, n: nat, key: Resource, ip: Ip)
    requires n < |ops| && ExecAll(NewDb(local), ops[..n]).Done? && !Delists(ops[n], local, key, ip)
    ensures var db := ExecAll(NewDb(local), ops[..n]).db;
            DiesBefore(ops, n, n + 1, local, key, ip) <==>
              ops[n].Gone? && ops[n].ip != local && ops[n].ip != ip
              && !Has(db, key, ops[n].ip) && Precedes(db, key, ops[n].ip, ip)
  {
    var db := ExecAll(NewDb(local), ops[..n]).db;
    DanglingAt(local, ops, n, key);
    if ops[n].Gone? && ops[n].ip != local && ops[n].ip != ip {
      NewDbInv(local);
      RunRefines(NewDb(local), ops[..n]);
      PrecedesIsHistory(local, ops, n, key, ops[n].ip, ip);
      EarlierNext(ops, n, ops[n].ip, n, ip, local, key);
      ListsIn(db, key, ops[n].ip);
      LeadsIn(ListOf(db, key), PtrOf(db, ops[n].ip), PtrOf(db, ip));
    }
  }

  /** One more operation that leaves the host's own place alone. */
  lemma DiesBeforeNext(local: Ip, ops: seq<Op>, n: nat, key: Resource, ip: Ip)
    requires n < |ops| && ExecAll(NewDb(local), ops[..n]).Done? && !Delists(ops[n], local, key, ip)
    ensures var db := ExecAll(NewDb(local), ops[..n]).db;
            SomeDiesBefore(ops, n + 1, local, key, ip) <==>
              || SomeDiesBefore(ops, n, local, key, ip)
              || (ops[n].Gone? && ops[n].ip != local && ops[n].ip != ip
                  && !Has(db, key, ops[n].ip) && Precedes(db, key, ops[n].ip, ip))
  {
    var m := n + 1;
    forall j: nat | j < n ensures DiesBefore(ops, j, m, local, key, ip) <==> DiesBefore(ops, j, n, local, key, ip) {
      if LeavesDangling(ops, j, local, key) { EarlierNext(ops, j, ops[j].ip, n, ip, local, key); }
    }
    DiesBeforeLast(local, ops, n, key, ip);
    if j: nat :| j < m && DiesBefore(ops, j, m, local, key, ip) {
      assert j < n ==> DiesBefore(ops, j, n, local, key, ip);
    }
    if j: nat :| j < n && DiesBefore(ops, j, n, local, key, ip) {
      assert DiesBefore(ops, j, m, local, key, ip);
    }
    assert DiesBefore(ops, n, m, local, key, ip) ==> SomeDiesBefore(ops, m, local, key, ip);
  }

  lemma {:induction false} DeadFirstIsHistory(local: Ip, ops: seq<Op>, n: nat, key: Resource, ip: Ip)
    requires n <= |ops| && ExecAll(NewDb(local), ops[..n]).Done?
    ensures DeadFirst(ExecAll(NewDb(local), ops[..n]).db, key, ip) <==>
              SomeDiesBefore(ops, n, local, key, ip)
  {
    if n == 0 {
    } else {
      PrefixStep(local, ops, n - 1);
      var db, op := ExecAll(NewDb(local), ops[..n - 1]).db, ops[n - 1];
      ExecDeadFirst(db, op, key, ip);
      if Delists(op, local, key, ip) {
        AllDiedBefore(local, ops, n, key, ip);
      } else {
        DeadFirstIsHistory(local, ops, n - 1, key, ip);
        DiesBeforeNext(local, ops, n - 1, key, ip);
      }
    }
  }

  lemma RemovalDanglesIff(local: Ip, ops: seq<Op>, key: Resource, ip: Ip)
    requires ExecAll(NewDb(local), ops).Done?
    ensures ExecAll(NewDb(local), ops + [Remove(key, ip)]).NullDereference? <==>
              DeadFirst(ExecAll(NewDb(local), ops).db, key, ip)
  {
    var db := ExecAll(NewDb(local), ops).db;
    NewDbInv(local);
    RunRefines(NewDb(local), ops);
    ExecLast(NewDb(local), ops, Remove(key, ip));
    SearchDangles(db, ListOf(db, key), ip);
  }

  /** Exactly when `remove_file` follows a dead pointer: a host was removed that had lost the resource to a
      revocation, and it had been listed from earlier on than the host that is looked for. */
  lemma RemovalCrashesIff(local: Ip, ops: seq<Op>, key: Resource, ip: Ip)
    requires ExecAll(NewDb(local), ops).Done?
    ensures ExecAll(NewDb(local), ops + [Remove(key, ip)]).NullDereference? <==>
              exists j: nat :: j < |ops| && LeavesDangling(ops, j, local, key)
                               && ListedEarlier(ops, j, ops[j].ip, |ops|, ip, local, key)
  {
    var n := |ops|;
    assert ops[..n] == ops;
    RemovalDanglesIff(local, ops, key, ip);
    DeadFirstIsHistory(local, ops, n, key, ip);
    if j: nat :| j < n && DiesBefore(ops, j, n, local, key, ip) {
      assert LeavesDangling(ops, j, local, key) && ListedEarlier(ops, j, ops[j].ip, n, ip, local, key);
    }
    if j: nat :| j < n && LeavesDangling(ops, j, local, key) && ListedEarlier(ops, j, ops[j].ip, n, ip, local, key) {
      assert DiesBefore(ops, j, n, local, key, ip);
    }
  }

  /** Such a run: after the host is forgotten, removing the resource from any other host meets its pointer. */
  lemma RemovalCrashes(local: Ip, other: Ip, key: Resource, ops: seq<Op>)
    requires local != other && ops == [Add(key, other), Revocation(key), Gone(other)]
    ensures ExecAll(NewDb(local), ops).Done? && ExecAll(NewDb(local), ops + [Remove(key, local)]).NullDereference?
  {
    SecondRevocationCrashes(local, other, key);
    LostThenGone(local, other, key, ops);
    RemovalCrashesIff(local, ops, key, local);
    assert ListedFrom(ops, 0, 2, local, key, other);
    assert ListedEarlier(ops, 2, other, 3, local, local, key);
  }
}
