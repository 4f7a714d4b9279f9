/** The database refines a plain relation between resources and addresses. */
module DatabaseTheorems {
  import opened ResourceHeaders
  import opened Database
  import opened DatabaseInvariants

  type Relation = set<(Resource, Ip)>

  /** Who has what, according to the lists of the hosts. */
  ghost function Rel(db: Db): Relation {
    set h: nat, r: nat | h < |db.hosts| && r < |db.resources| && Possessed(db, h, r) > 0 ::
      (db.resources[r].key, db.hosts[h].ip)
  }

  ghost predicate Has(db: Db, key: Resource, ip: Ip) {
    Possessed(db, FindIp(db.hosts, ip), FindResource(db.resources, key)) > 0
  }

  lemma RelIsHas(db: Db)
    requires Inv(db)
    ensures forall key: Resource, ip: Ip :: (key, ip) in Rel(db) <==> Has(db, key, ip)
  {
    forall key: Resource, ip: Ip ensures (key, ip) in Rel(db) <==> Has(db, key, ip) {
      var h, r := FindIp(db.hosts, ip), FindResource(db.resources, key);
      if (key, ip) in Rel(db) {
        var g: nat, x: nat :| g < |db.hosts| && x < |db.resources| && Possessed(db, g, x) > 0
                              && (db.resources[x].key, db.hosts[g].ip) == (key, ip);
        assert g == h && x == r;
      }
    }
  }

  // ----- The abstract operations -----

  ghost function AbsStep(rel: Relation, op: Op, local: Ip): Relation {
    match op
    case Add(key, ip) => rel + {(key, ip)}
    case Remove(key, ip) => rel - {(key, ip)}
    case Beacon(ip, keys) => rel + (set key | key in keys :: (key, ip))
    case Revocation(key) => set x | x in rel && x.0 != key
    case Gone(ip) => if ip == local then rel else set x | x in rel && x.1 != ip
  }

  ghost function AbsAll(rel: Relation, ops: seq<Op>, local: Ip): Relation
    decreases |ops|
  {
    if ops == [] then rel else AbsAll(AbsStep(rel, ops[0], local), ops[1..], local)
  }

  // ----- Each operation refines its abstraction -----

  lemma FindAppended(rs: seq<ResourceEntry>, e: ResourceEntry, k: Resource)
    ensures if FindResource(rs, k) < |rs| then FindResource(rs + [e], k) == FindResource(rs, k)
            else FindResource(rs + [e], k) >= |rs|
  {
    var i, j := FindResource(rs, k), FindResource(rs + [e], k);
    if i < |rs| { assert (rs + [e])[i].key == k; }
    if j < |rs| { assert rs[j].key == k; }
  }

  lemma WithResourceHas(db: Db, key: Resource, k: Resource, ip: Ip)
    requires Inv(db)
    ensures Has(WithResource(db, key), k, ip) <==> Has(db, k, ip)
  {
    if FindResource(db.resources, key) == |db.resources| {
      FindAppended(db.resources, ResourceEntry(key, false, []), k);
      assert forall h: nat, r: nat :: Possessed(WithResource(db, key), h, r) == Possessed(db, h, r);
    }
  }

  lemma FindIpAppended(hs: seq<HostEntry>, e: HostEntry, i: Ip)
    ensures FindIp(hs + [e], i) ==
              if FindIp(hs, i) < |hs| then FindIp(hs, i) else if e.ip == i then |hs| else |hs| + 1
  {
    var a, b := FindIp(hs, i), FindIp(hs + [e], i);
    if a < |hs| { assert (hs + [e])[a].ip == i; }
    if b < |hs| { assert hs[b].ip == i; }
    assert (hs + [e])[|hs|] == e;
  }

  lemma WithHostHas(db: Db, ip: Ip, k: Resource, i: Ip)
    requires Inv(db)
    ensures Has(WithHost(db, ip), k, i) <==> Has(db, k, i)
  {
    if FindIp(db.hosts, ip) == |db.hosts| {
      FindIpAppended(db.hosts, HostEntry(db.next, ip, []), i);
      assert WithHost(db, ip).hosts == db.hosts + [HostEntry(db.next, ip, [])];
    }
  }

  lemma SameKeysFind(rs: seq<ResourceEntry>, rs': seq<ResourceEntry>)
    requires |rs| == |rs'| && forall i: nat | i < |rs| :: rs[i].key == rs'[i].key
    ensures forall key :: FindResource(rs, key) == FindResource(rs', key)
  {
  }

  lemma LinkHas(db: Db, r: nat, h: nat, k: Resource, i: Ip)
    requires Inv(db) && r < |db.resources| && h < |db.hosts|
    ensures Has(Link(db, r, h), k, i) <==> Has(db, k, i) || (k, i) == (db.resources[r].key, db.hosts[h].ip)
  {
    LinkEffect(db, r, h);
    SameHostsLock(db.hosts, Link(db, r, h).hosts);
    SameKeysFind(db.resources, Link(db, r, h).resources);
  }

  lemma AddFileHas(db: Db, key: Resource, ip: Ip, k: Resource, i: Ip)
    requires Inv(db)
    ensures Has(AddFile(db, key, ip), k, i) <==> Has(db, k, i) || (k, i) == (key, ip)
  {
    WithResourceKeeps(db, key);
    WithHostKeeps(WithResource(db, key), ip);
    var db1 := WithHost(WithResource(db, key), ip);
    WithResourceHas(db, key, k, i);
    WithHostHas(WithResource(db, key), ip, k, i);
    LinkHas(db1, FindResource(db1.resources, key), FindIp(db1.hosts, ip), k, i);
  }

  lemma HostHasIsHas(db: Db, h: nat, key: Resource)
    requires Inv(db) && h < |db.hosts|
    ensures HostHas(db, h, key) <==> Has(db, key, db.hosts[h].ip)
  {
    var r, possessed := FindResource(db.resources, key), db.hosts[h].possessed;
    assert FindIp(db.hosts, db.hosts[h].ip) == h;
    assert r in possessed <==> Possessed(db, h, r) > 0;
    if HostHas(db, h, key) {
      var x: nat :| x < |db.resources| && x in possessed && db.resources[x].key == key;
      assert x == r;
    }
  }

  lemma {:induction false} AddMissingHas(db: Db, ip: Ip, keys: seq<Resource>, k: Resource, i: Ip)
    requires Inv(db)
    ensures Has(AddMissing(db, ip, keys), k, i) <==> Has(db, k, i) || (k in keys && i == ip)
    decreases |keys|
  {
    if keys == [] {
    } else {
      var h := FindIp(db.hosts, ip);
      AddFileKeeps(db, keys[0], ip);
      AddFileHas(db, keys[0], ip, k, i);
      if h < |db.hosts| { HostHasIsHas(db, h, keys[0]); }
      AddMissingHas(AddOne(db, ip, keys[0]), ip, keys[1..], k, i);
    }
  }

  /** The search of remove_file succeeds exactly when the resource lists a host with that address. */
  lemma FindHolderIs(db: Db, r: nat, ip: Ip)
    requires Inv(db) && r < |db.resources|
    ensures var f, h := FindHolder(db.hosts, db.resources[r].hosts, ip), FindIp(db.hosts, ip);
            && (f.Holder? ==> f.host == h && Listed(db, r, db.hosts[h].ptr) > 0)
            && (f.NoHolder? ==> h < |db.hosts| ==> Listed(db, r, db.hosts[h].ptr) == 0)
            && (f.Dangling? ==> db.resources[r].invalidated)
  {
    var ptrs := db.resources[r].hosts;
    var f, h := FindHolder(db.hosts, ptrs, ip), FindIp(db.hosts, ip);
    match f
    case Holder(g) =>
      assert g == h && db.hosts[h].ptr in multiset(ptrs);
    case NoHolder =>
      if h < |db.hosts| {
        LockIs(db, h);
        assert db.hosts[h].ptr !in ptrs;
        assert db.hosts[h].ptr !in multiset(ptrs);
      }
    case Dangling =>
      var p :| p in ptrs && Lock(db.hosts, p) == |db.hosts|;
      assert p in multiset(ptrs);
      assert Listed(db, r, p) > 0;
  }

  lemma UnlinkHas(db: Db, r: nat, h: nat, k: Resource, i: Ip)
    requires Inv(db) && r < |db.resources| && h < |db.hosts|
    ensures Has(Unlink(db, r, h), k, i) <==> Has(db, k, i) && (k, i) != (db.resources[r].key, db.hosts[h].ip)
  {
    UnlinkEffect(db, r, h);
    SameHostsLock(db.hosts, Unlink(db, r, h).hosts);
    SameKeysFind(db.resources, Unlink(db, r, h).resources);
  }

  lemma RemoveFileHas(db: Db, key: Resource, ip: Ip, k: Resource, i: Ip)
    requires Inv(db) && RemoveFile(db, key, ip).Done?
    ensures Has(RemoveFile(db, key, ip).db, k, i) <==> Has(db, k, i) && (k, i) != (key, ip)
  {
    var r, h := FindResource(db.resources, key), FindIp(db.hosts, ip);
    if r < |db.resources| {
      FindHolderIs(db, r, ip);
      if h < |db.hosts| {
        assert Possessed(db, h, r) <= Listed(db, r, db.hosts[h].ptr);
        UnlinkHas(db, r, h, k, i);
      }
    }
  }

  lemma RevokeHas(db: Db, key: Resource, k: Resource, i: Ip)
    requires Inv(db) && Revoke(db, key).Done?
    ensures Has(Revoke(db, key).db, k, i) <==> Has(db, k, i) && k != key
  {
    if FindResource(db.resources, key) < |db.resources| {
      var db' := Revoke(db, key).db;
      RevokeEffect(db, key);
      SameHostsLock(db.hosts, db'.hosts);
      SameKeysFind(db.resources, db'.resources);
    }
  }

  lemma EraseFindIp(hs: seq<HostEntry>, h: nat, i: Ip)
    requires h < |hs| && forall a: nat, b: nat | a < b < |hs| :: hs[a].ip != hs[b].ip
    ensures var hs', a := hs[..h] + hs[h + 1..], FindIp(hs, i);
            FindIp(hs', i) == if a == h then |hs'| else if a < h then a else a - 1
  {
    var hs', a := hs[..h] + hs[h + 1..], FindIp(hs, i);
    forall g: nat | g < |hs'| ensures hs'[g] == hs[if g < h then g else g + 1] {}
    if a < |hs| && a != h {
      assert hs'[if a < h then a else a - 1].ip == i;
    }
  }

  lemma EraseHas(db: Db, db': Db, h: nat, r: nat, i: Ip)
    requires HostsDistinct(db) && h < |db.hosts| && db'.hosts == db.hosts[..h] + db.hosts[h + 1..]
    ensures Possessed(db', FindIp(db'.hosts, i), r) ==
              if i == db.hosts[h].ip then 0 else Possessed(db, FindIp(db.hosts, i), r)
  {
    var a, b := FindIp(db.hosts, i), FindIp(db'.hosts, i);
    EraseFindIp(db.hosts, h, i);
    if a < |db.hosts| && a != h {
      assert db'.hosts[b] == db.hosts[a];
    }
  }

  lemma RemoveHostHas(db: Db, ip: Ip, k: Resource, i: Ip)
    requires Inv(db)
    ensures Has(RemoveHost(db, ip), k, i) <==> Has(db, k, i) && (i != ip || ip == db.hosts[0].ip)
  {
    var h, db' := FindIp(db.hosts, ip), RemoveHost(db, ip);
    if 0 < h < |db.hosts| {
      RemoveHostEffect(db, ip);
      SameKeysFind(db.resources, db'.resources);
      EraseHas(db, db', h, FindResource(db.resources, k), i);
    }
  }

  lemma ExecHas(db: Db, op: Op, k: Resource, i: Ip)
    requires Inv(db) && Exec(db, op).Done?
    ensures Has(Exec(db, op).db, k, i) <==>
              match op
              case Add(key, ip) => Has(db, k, i) || (k == key && i == ip)
              case Remove(key, ip) => Has(db, k, i) && !(k == key && i == ip)
              case Beacon(ip, keys) => Has(db, k, i) || (k in keys && i == ip)
              case Revocation(key) => Has(db, k, i) && k != key
              case Gone(ip) => Has(db, k, i) && (i != ip || ip == db.hosts[0].ip)
  {
    match op
    case Add(key, ip) => AddFileHas(db, key, ip, k, i);
    case Remove(key, ip) => RemoveFileHas(db, key, ip, k, i);
    case Beacon(ip, keys) =>
      WithHostKeeps(db, ip);
      WithHostHas(db, ip, k, i);
      AddMissingHas(WithHost(db, ip), ip, keys, k, i);
    case Revocation(key) => RevokeHas(db, key, k, i);
    case Gone(ip) => RemoveHostHas(db, ip, k, i);
  }

  lemma AbsHas(db: Db, op: Op, k: Resource, i: Ip)
    requires Inv(db)
    ensures (k, i) in AbsStep(Rel(db), op, db.hosts[0].ip) <==>
              match op
              case Add(key, ip) => Has(db, k, i) || (k == key && i == ip)
              case Remove(key, ip) => Has(db, k, i) && !(k == key && i == ip)
              case Beacon(ip, keys) => Has(db, k, i) || (k in keys && i == ip)
              case Revocation(key) => Has(db, k, i) && k != key
              case Gone(ip) => Has(db, k, i) && (i != ip || ip == db.hosts[0].ip)
  {
    RelIsHas(db);
  }

  /** One operation refines its abstraction. */
  lemma ExecRefines(db: Db, op: Op)
    requires Inv(db) && Exec(db, op).Done?
    ensures Inv(Exec(db, op).db)
    ensures Rel(Exec(db, op).db) == AbsStep(Rel(db), op, db.hosts[0].ip)
  {
    var db' := Exec(db, op).db;
    ExecKeeps(db, op);
    RelIsHas(db');
    forall x: (Resource, Ip) ensures x in Rel(db') <==> x in AbsStep(Rel(db), op, db.hosts[0].ip) {
      ExecHas(db, op, x.0, x.1);
      AbsHas(db, op, x.0, x.1);
    }
  }

  // ----- What never changes -----

  /** Entries keep their place, revocation is for good, and localhost stays first. */
  ghost predicate Extends(db: Db, db': Db) {
    && |db.resources| <= |db'.resources|
    && (forall r: nat | r < |db.resources| ::
          && db'.resources[r].key == db.resources[r].key
          && (db.resources[r].invalidated ==> db'.resources[r].invalidated))
    && |db.hosts| > 0 && |db'.hosts| > 0
    && db'.hosts[0].ip == db.hosts[0].ip && db'.hosts[0].ptr == db.hosts[0].ptr
  }

  lemma AddFileExtends(db: Db, key: Resource, ip: Ip)
    requires |db.hosts| > 0
    ensures Extends(db, AddFile(db, key, ip))
  {
  }

  lemma {:induction false} AddMissingExtends(db: Db, ip: Ip, keys: seq<Resource>)
    requires |db.hosts| > 0
    ensures Extends(db, AddMissing(db, ip, keys))
    decreases |keys|
  {
    if keys == [] {
    } else {
      AddFileExtends(db, keys[0], ip);
      AddMissingExtends(AddOne(db, ip, keys[0]), ip, keys[1..]);
    }
  }

  lemma ExecExtends(db: Db, op: Op)
    requires Inv(db) && Exec(db, op).Done?
    ensures Extends(db, Exec(db, op).db)
  {
    match op
    case Add(key, ip) => AddFileExtends(db, key, ip);
    case Remove(key, ip) =>
    case Beacon(ip, keys) => AddMissingExtends(WithHost(db, ip), ip, keys);
    case Revocation(key) =>
      if FindResource(db.resources, key) < |db.resources| { RevokeEffect(db, key); }
    case Gone(ip) =>
      if 0 < FindIp(db.hosts, ip) < |db.hosts| { RemoveHostEffect(db, ip); }
  }

  /** Over any sequence of operations the database is the relation the plain operations compute;
      pointers, multiplicities and uniqueness hold throughout, and nothing stored is lost. */
  lemma {:induction false} RunRefines(db: Db, ops: seq<Op>)
    requires Inv(db) && ExecAll(db, ops).Done?
    ensures Inv(ExecAll(db, ops).db)
    ensures Rel(ExecAll(db, ops).db) == AbsAll(Rel(db), ops, db.hosts[0].ip)
    ensures Extends(db, ExecAll(db, ops).db)
    decreases |ops|
  {
    if ops == [] {
    } else {
      ExecRefines(db, ops[0]);
      ExecExtends(db, ops[0]);
      RunRefines(Exec(db, ops[0]).db, ops[1..]);
    }
  }

  lemma NewDbInv(local: Ip)
    ensures Inv(NewDb(local)) && Rel(NewDb(local)) == {}
  {
  }

  // ----- Queries agree with the relation -----

  /** The resource's own list names the stored host with that address, whatever the host's list says. */
  ghost predicate Lists(db: Db, key: Resource, ip: Ip) {
    var h := FindIp(db.hosts, ip);
    h < |db.hosts| && Listed(db, FindResource(db.resources, key), db.hosts[h].ptr) > 0
  }

  ghost predicate Revoked(db: Db, key: Resource) {
    var r := FindResource(db.resources, key);
    r < |db.resources| && db.resources[r].invalidated
  }

  /** remove_file's answer, which should tell whether the host had the resource: it tells what the
      resource lists, and that is right unless the resource is revoked and still lists a host that has
      lost it. */
  lemma RemoveResult(db: Db, key: Resource, ip: Ip)
    requires Inv(db) && RemoveFile(db, key, ip).Done?
    ensures RemoveFile(db, key, ip).result <==> Lists(db, key, ip)
    ensures (RemoveFile(db, key, ip).result <==> (key, ip) in Rel(db)) <==>
              !(Revoked(db, key) && Lists(db, key, ip)
                && Possessed(db, FindIp(db.hosts, ip), FindResource(db.resources, key)) == 0)
  {
    RelIsHas(db);
    var r, h := FindResource(db.resources, key), FindIp(db.hosts, ip);
    if r < |db.resources| {
      FindHolderIs(db, r, ip);
      if h < |db.hosts| {
        assert Possessed(db, h, r) <= Listed(db, r, db.hosts[h].ptr);
      }
    }
  }

  /** For a resource that was never revoked there is an answer and it is right. */
  lemma RemoveResultUnrevoked(db: Db, key: Resource, ip: Ip)
    requires Inv(db) && !Revoked(db, key)
    ensures RemoveFile(db, key, ip).Done?
    ensures RemoveFile(db, key, ip).result <==> (key, ip) in Rel(db)
  {
    var r := FindResource(db.resources, key);
    if r < |db.resources| {
      FindHolderIs(db, r, ip);
    }
    RemoveResult(db, key, ip);
  }

  lemma ListedIn(db: Db, r: nat)
    requires r < |db.resources|
    ensures forall p: HostPtr :: p in db.resources[r].hosts <==> Listed(db, r, p) > 0
  {
  }

  /** An unrevoked resource points to stored hosts, to each exactly if the host has the resource. */
  lemma ListedIsPossessed(db: Db, r: nat)
    requires Inv(db) && r < |db.resources| && !db.resources[r].invalidated
    ensures forall p | p in db.resources[r].hosts :: Live(db, p)
    ensures forall h: nat | h < |db.hosts| :: db.hosts[h].ptr in db.resources[r].hosts <==> Possessed(db, h, r) > 0
  {
    ListedIn(db, r);
  }

  /** The hosts who_has_file leads to, for a resource that was never revoked: all of them stored,
      and their addresses those of the relation. */
  lemma HoldersAgree(db: Db, key: Resource, ip: Ip)
    requires Inv(db) && FindResource(db.resources, key) < |db.resources|
    requires !db.resources[FindResource(db.resources, key)].invalidated
    ensures var ptrs := db.resources[FindResource(db.resources, key)].hosts;
            && (forall p | p in ptrs :: Live(db, p))
            && ((key, ip) in Rel(db) <==> exists p :: p in ptrs && Live(db, p) && db.hosts[Lock(db.hosts, p)].ip == ip)
  {
    var r, h := FindResource(db.resources, key), FindIp(db.hosts, ip);
    var ptrs := db.resources[r].hosts;
    RelIsHas(db);
    ListedIsPossessed(db, r);
    if h < |db.hosts| {
      LockIs(db, h);
      assert db.hosts[h].ptr in ptrs <==> (key, ip) in Rel(db);
    }
    if p :| p in ptrs && Live(db, p) && db.hosts[Lock(db.hosts, p)].ip == ip {
      assert Lock(db.hosts, p) == h;
    }
  }

  // ----- When an operation follows a dead pointer -----

  /** Pointer `i` of the list is dead and `op` gets as far as following it. */
  ghost predicate DeadAt(db: Db, op: Op, ptrs: seq<HostPtr>, i: nat)
    requires i < |ptrs|
  {
    && !Live(db, ptrs[i])
    && (op.Remove? ==> forall j: nat | j < i && Live(db, ptrs[j]) :: db.hosts[Lock(db.hosts, ptrs[j])].ip != op.ip)
  }

  lemma {:induction false} DanglingIff(db: Db, op: Op, ptrs: seq<HostPtr>)
    requires op.Remove?
    ensures FindHolder(db.hosts, ptrs, op.ip).Dangling? <==> exists i: nat :: i < |ptrs| && DeadAt(db, op, ptrs, i)
  {
    if ptrs == [] {
    } else {
      DanglingIff(db, op, ptrs[1..]);
      var here := Lock(db.hosts, ptrs[0]);
      if here == |db.hosts| {
        assert DeadAt(db, op, ptrs, 0);
      } else if db.hosts[here].ip != op.ip {
        if i: nat :| i < |ptrs| && DeadAt(db, op, ptrs, i) {
          assert DeadAt(db, op, ptrs[1..], i - 1);
        }
        if i: nat :| i < |ptrs[1..]| && DeadAt(db, op, ptrs[1..], i) {
          assert DeadAt(db, op, ptrs, i + 1);
        }
      }
    }
  }

  /** An operation follows a dead pointer exactly when a revoked resource points to a host that is
      gone, and the operation meets that pointer: a revocation always does, a removal unless the
      host it looks for comes first. */
  lemma DefinedIff(db: Db, op: Op)
    requires Inv(db)
    ensures Exec(db, op).NullDereference? <==>
              && (op.Remove? || op.Revocation?)
              && var r := FindResource(db.resources, op.key);
                 && r < |db.resources| && db.resources[r].invalidated
                 && exists i: nat :: i < |db.resources[r].hosts| && DeadAt(db, op, db.resources[r].hosts, i)
  {
    if op.Remove? || op.Revocation? {
      var r := FindResource(db.resources, op.key);
      if r < |db.resources| {
        var ptrs := db.resources[r].hosts;
        forall p | p in ptrs && !Live(db, p) ensures db.resources[r].invalidated {
          assert p in multiset(ptrs);
          assert Listed(db, r, p) > 0;
        }
        if op.Remove? {
          DanglingIff(db, op, ptrs);
        } else {
          assert forall i: nat | i < |ptrs| :: DeadAt(db, op, ptrs, i) <==> !Live(db, ptrs[i]);
        }
      }
    }
  }

  ghost predicate AllLive(db: Db) { forall r: nat, p: HostPtr | Listed(db, r, p) > 0 :: Live(db, p) }

  lemma WithHostAllLive(db: Db, ip: Ip)
    requires AllLive(db)
    ensures AllLive(WithHost(db, ip))
  {
    var db' := WithHost(db, ip);
    assert forall r: nat, p: HostPtr :: Listed(db', r, p) == Listed(db, r, p);
    forall p: HostPtr | Live(db, p) ensures Live(db', p) {
      assert db'.hosts[Lock(db.hosts, p)].ptr == p;
    }
  }

  lemma AddFileAllLive(db: Db, key: Resource, ip: Ip)
    requires Inv(db) && AllLive(db)
    ensures AllLive(AddFile(db, key, ip))
  {
    var db0 := WithResource(db, key);
    assert forall r: nat, p: HostPtr :: Listed(db0, r, p) == Listed(db, r, p);
    WithHostAllLive(db0, ip);
    WithResourceKeeps(db, key);
    WithHostKeeps(db0, ip);
    var db1 := WithHost(db0, ip);
    var r, h := FindResource(db1.resources, key), FindIp(db1.hosts, ip);
    LinkEffect(db1, r, h);
    SameHostsLock(db1.hosts, Link(db1, r, h).hosts);
    LockIs(db1, h);
  }

  lemma {:induction false} AddMissingAllLive(db: Db, ip: Ip, keys: seq<Resource>)
    requires Inv(db) && AllLive(db)
    ensures AllLive(AddMissing(db, ip, keys))
    decreases |keys|
  {
    if keys == [] {
    } else {
      AddFileAllLive(db, keys[0], ip);
      AddFileKeeps(db, keys[0], ip);
      AddMissingAllLive(AddOne(db, ip, keys[0]), ip, keys[1..]);
    }
  }

  lemma AllLiveKept(db: Db, op: Op)
    requires Inv(db) && AllLive(db) && !op.Gone?
    ensures Exec(db, op).Done? && AllLive(Exec(db, op).db)
  {
    DefinedIff(db, op);
    forall r: nat, i: nat | r < |db.resources| && i < |db.resources[r].hosts| ensures Live(db, db.resources[r].hosts[i]) {
      assert db.resources[r].hosts[i] in multiset(db.resources[r].hosts);
      assert Listed(db, r, db.resources[r].hosts[i]) > 0;
    }
    match op
    case Add(key, ip) => AddFileAllLive(db, key, ip);
    case Remove(key, ip) =>
      var r := FindResource(db.resources, key);
      if r < |db.resources| {
        var f := FindHolder(db.hosts, db.resources[r].hosts, ip);
        if f.Holder? {
          UnlinkEffect(db, r, f.host);
          SameHostsLock(db.hosts, Unlink(db, r, f.host).hosts);
        }
      }
    case Beacon(ip, keys) =>
      WithHostAllLive(db, ip);
      WithHostKeeps(db, ip);
      AddMissingAllLive(WithHost(db, ip), ip, keys);
    case Revocation(key) =>
      if FindResource(db.resources, key) < |db.resources| {
        RevokeEffect(db, key);
        SameHostsLock(db.hosts, Revoke(db, key).db.hosts);
      }
  }

  /** As long as no host is removed, which is all the program does today, no pointer ever dies. */
  lemma {:induction false} NoRemovalNoDeadPointer(db: Db, ops: seq<Op>)
    requires Inv(db) && AllLive(db) && forall op | op in ops :: !op.Gone?
    ensures ExecAll(db, ops).Done? && AllLive(ExecAll(db, ops).db)
    decreases |ops|
  {
    if ops == [] {
    } else {
      assert ops[0] in ops;
      AllLiveKept(db, ops[0]);
      ExecKeeps(db, ops[0]);
      NoRemovalNoDeadPointer(Exec(db, ops[0]).db, ops[1..]);
    }
  }

  // ----- The relation told from the history alone -----

  predicate Announces(op: Op, key: Resource, ip: Ip) {
    (op.Add? && op.key == key && op.ip == ip) || (op.Beacon? && op.ip == ip && key in op.keys)
  }

  predicate Withdraws(op: Op, local: Ip, key: Resource, ip: Ip) {
    || (op.Remove? && op.key == key && op.ip == ip)
    || (op.Revocation? && op.key == key)
    || (op.Gone? && op.ip == ip && ip != local)
  }

  /** Nothing from operation `i` on takes `key` away from `ip`. */
  ghost predicate Undisturbed(ops: seq<Op>, i: nat, local: Ip, key: Resource, ip: Ip) {
    forall j: nat | i <= j < |ops| :: !Withdraws(ops[j], local, key, ip)
  }

  /** Some operation announced the pair and none after it withdrew it. */
  ghost predicate Current(ops: seq<Op>, local: Ip, key: Resource, ip: Ip) {
    exists i: nat :: i < |ops| && Announces(ops[i], key, ip) && Undisturbed(ops, i + 1, local, key, ip)
  }

  lemma HistoryTail(ops: seq<Op>, local: Ip, key: Resource, ip: Ip)
    requires ops != []
    ensures forall i: nat :: Undisturbed(ops, i + 1, local, key, ip) <==> Undisturbed(ops[1..], i, local, key, ip)
    ensures Current(ops, local, key, ip) <==>
              Current(ops[1..], local, key, ip)
              || (Announces(ops[0], key, ip) && Undisturbed(ops[1..], 0, local, key, ip))
  {
    var rest := ops[1..];
    forall i: nat ensures Undisturbed(ops, i + 1, local, key, ip) <==> Undisturbed(rest, i, local, key, ip) {
      if Undisturbed(ops, i + 1, local, key, ip) {
        forall j: nat | i <= j < |rest| ensures !Withdraws(rest[j], local, key, ip) { assert rest[j] == ops[j + 1]; }
      }
      if Undisturbed(rest, i, local, key, ip) {
        forall j: nat | i + 1 <= j < |ops| ensures !Withdraws(ops[j], local, key, ip) { assert ops[j] == rest[j - 1]; }
      }
    }
    if i: nat :| i < |ops| && Announces(ops[i], key, ip) && Undisturbed(ops, i + 1, local, key, ip) {
      if i > 0 { assert rest[i - 1] == ops[i] && Undisturbed(rest, i - 1 + 1, local, key, ip); }
    }
    if i: nat :| i < |rest| && Announces(rest[i], key, ip) && Undisturbed(rest, i + 1, local, key, ip) {
      assert ops[i + 1] == rest[i] && Undisturbed(ops, i + 1 + 1, local, key, ip);
    }
  }

  lemma {:induction false} AbsIsHistory(rel: Relation, ops: seq<Op>, local: Ip, key: Resource, ip: Ip)
    ensures (key, ip) in AbsAll(rel, ops, local) <==>
              Current(ops, local, key, ip) || ((key, ip) in rel && Undisturbed(ops, 0, local, key, ip))
    decreases |ops|
  {
    if ops == [] {
    } else {
      var rest := ops[1..];
      AbsIsHistory(AbsStep(rel, ops[0], local), rest, local, key, ip);
      HistoryTail(ops, local, key, ip);
    }
  }

  /** Over the life of a database a host has a resource exactly when its last announcement was not
      withdrawn since, by a removal, a revocation or the host's disappearance. */
  lemma PossessionIsHistory(local: Ip, ops: seq<Op>, key: Resource, ip: Ip)
    requires ExecAll(NewDb(local), ops).Done?
    ensures (key, ip) in Rel(ExecAll(NewDb(local), ops).db) <==> Current(ops, local, key, ip)
  {
    NewDbInv(local);
    RunRefines(NewDb(local), ops);
    AbsIsHistory({}, ops, local, key, ip);
  }

  // ----- The resources' own lists, told from the history -----

  lemma WithResourceLists(db: Db, key: Resource, k: Resource, i: Ip)
    requires Inv(db)
    ensures Lists(WithResource(db, key), k, i) <==> Lists(db, k, i)
  {
    if FindResource(db.resources, key) == |db.resources| {
      FindAppended(db.resources, ResourceEntry(key, false, []), k);
      assert forall r: nat, p: HostPtr :: Listed(WithResource(db, key), r, p) == Listed(db, r, p);
    }
  }

  /** No resource lists a pointer that no host has had yet. */
  lemma WithHostLists(db: Db, ip: Ip, k: Resource, i: Ip)
    requires Inv(db)
    ensures Lists(WithHost(db, ip), k, i) <==> Lists(db, k, i)
  {
    var db' := WithHost(db, ip);
    if FindIp(db.hosts, ip) == |db.hosts| {
      var h, h' := FindIp(db.hosts, i), FindIp(db'.hosts, i);
      assert forall r: nat, p: HostPtr :: Listed(db', r, p) == Listed(db, r, p);
      assert forall r: nat :: Listed(db, r, db.next) == 0;
      assert db'.hosts[|db.hosts|] == HostEntry(db.next, ip, []);
      if h < |db.hosts| {
        assert db'.hosts[h].ip == i;
      } else if h' < |db'.hosts| {
        assert h' == |db.hosts|;
      }
    }
  }

  lemma LinkLists(db: Db, r: nat, h: nat, k: Resource, i: Ip)
    requires Inv(db) && r < |db.resources| && h < |db.hosts|
    ensures Lists(Link(db, r, h), k, i) <==> Lists(db, k, i) || (k, i) == (db.resources[r].key, db.hosts[h].ip)
  {
    LinkEffect(db, r, h);
    SameHostsLock(db.hosts, Link(db, r, h).hosts);
    SameKeysFind(db.resources, Link(db, r, h).resources);
  }

  lemma AddFileLists(db: Db, key: Resource, ip: Ip, k: Resource, i: Ip)
    requires Inv(db)
    ensures Lists(AddFile(db, key, ip), k, i) <==> Lists(db, k, i) || (k, i) == (key, ip)
  {
    var db0 := WithResource(db, key);
    WithResourceKeeps(db, key);
    WithResourceLists(db, key, k, i);
    WithHostKeeps(db0, ip);
    WithHostLists(db0, ip, k, i);
    var db1 := WithHost(db0, ip);
    LinkLists(db1, FindResource(db1.resources, key), FindIp(db1.hosts, ip), k, i);
  }

  lemma HasIsListed(db: Db, key: Resource, ip: Ip)
    requires Inv(db)
    ensures Has(db, key, ip) ==> Lists(db, key, ip)
  {
    var r, h := FindResource(db.resources, key), FindIp(db.hosts, ip);
    if Has(db, key, ip) {
      assert Possessed(db, h, r) <= Listed(db, r, db.hosts[h].ptr);
    }
  }

  /** A beacon skips what the host has, and what the host has is listed. */
  lemma {:induction false} AddMissingLists(db: Db, ip: Ip, keys: seq<Resource>, k: Resource, i: Ip)
    requires Inv(db)
    ensures Lists(AddMissing(db, ip, keys), k, i) <==> Lists(db, k, i) || (k in keys && i == ip)
    decreases |keys|
  {
    if keys == [] {
    } else {
      var h := FindIp(db.hosts, ip);
      AddFileKeeps(db, keys[0], ip);
      AddFileLists(db, keys[0], ip, k, i);
      if h < |db.hosts| {
        HostHasIsHas(db, h, keys[0]);
        HasIsListed(db, keys[0], ip);
      }
      AddMissingLists(AddOne(db, ip, keys[0]), ip, keys[1..], k, i);
    }
  }

  lemma UnlinkLists(db: Db, r: nat, h: nat, k: Resource, i: Ip)
    requires Inv(db) && r < |db.resources| && h < |db.hosts|
    ensures Lists(Unlink(db, r, h), k, i) <==> Lists(db, k, i) && (k, i) != (db.resources[r].key, db.hosts[h].ip)
  {
    UnlinkEffect(db, r, h);
    SameHostsLock(db.hosts, Unlink(db, r, h).hosts);
    SameKeysFind(db.resources, Unlink(db, r, h).resources);
  }

  lemma RemoveFileLists(db: Db, key: Resource, ip: Ip, k: Resource, i: Ip)
    requires Inv(db) && RemoveFile(db, key, ip).Done?
    ensures Lists(RemoveFile(db, key, ip).db, k, i) <==> Lists(db, k, i) && (k, i) != (key, ip)
  {
    var r, h := FindResource(db.resources, key), FindIp(db.hosts, ip);
    if r < |db.resources| {
      FindHolderIs(db, r, ip);
      if h < |db.hosts| { UnlinkLists(db, r, h, k, i); }
    }
  }

  lemma RevokeLists(db: Db, key: Resource, k: Resource, i: Ip)
    requires Inv(db) && Revoke(db, key).Done?
    ensures Lists(Revoke(db, key).db, k, i) <==> Lists(db, k, i)
  {
    if FindResource(db.resources, key) < |db.resources| {
      var db' := Revoke(db, key).db;
      RevokeEffect(db, key);
      SameHostsLock(db.hosts, db'.hosts);
      SameKeysFind(db.resources, db'.resources);
    }
  }

  lemma EraseLists(db: Db, db': Db, h: nat, r: nat, i: Ip)
    requires HostsDistinct(db) && h < |db.hosts| && db'.hosts == db.hosts[..h] + db.hosts[h + 1..]
    requires forall p: HostPtr | p != db.hosts[h].ptr :: Listed(db', r, p) == Listed(db, r, p)
    ensures var a, b := FindIp(db.hosts, i), FindIp(db'.hosts, i);
            (b < |db'.hosts| && Listed(db', r, db'.hosts[b].ptr) > 0) <==>
            (i != db.hosts[h].ip && a < |db.hosts| && Listed(db, r, db.hosts[a].ptr) > 0)
  {
    var a, b := FindIp(db.hosts, i), FindIp(db'.hosts, i);
    EraseFindIp(db.hosts, h, i);
    if a < |db.hosts| && a != h {
      assert db'.hosts[b] == db.hosts[a];
    }
  }

  lemma RemoveHostLists(db: Db, ip: Ip, k: Resource, i: Ip)
    requires Inv(db)
    ensures Lists(RemoveHost(db, ip), k, i) <==> Lists(db, k, i) && (i != ip || ip == db.hosts[0].ip)
  {
    var h, db' := FindIp(db.hosts, ip), RemoveHost(db, ip);
    if 0 < h < |db.hosts| {
      RemoveHostEffect(db, ip);
      SameKeysFind(db.resources, db'.resources);
      EraseLists(db, db', h, FindResource(db.resources, k), i);
    }
  }

  lemma ExecLists(db: Db, op: Op, k: Resource, i: Ip)
    requires Inv(db) && Exec(db, op).Done?
    ensures Lists(Exec(db, op).db, k, i) <==>
              Announces(op, k, i)
              || (Lists(db, k, i) && (op.Revocation? || !Withdraws(op, db.hosts[0].ip, k, i)))
  {
    match op
    case Add(key, ip) => AddFileLists(db, key, ip, k, i);
    case Remove(key, ip) => RemoveFileLists(db, key, ip, k, i);
    case Beacon(ip, keys) =>
      WithHostKeeps(db, ip);
      WithHostLists(db, ip, k, i);
      AddMissingLists(WithHost(db, ip), ip, keys, k, i);
    case Revocation(key) => RevokeLists(db, key, k, i);
    case Gone(ip) => RemoveHostLists(db, ip, k, i);
  }

  /** The operations other than revocations. */
  function WithoutRevocations(ops: seq<Op>): seq<Op> {
    if ops == [] then []
    else if ops[0].Revocation? then WithoutRevocations(ops[1..])
    else [ops[0]] + WithoutRevocations(ops[1..])
  }

  lemma {:induction false} ListsIsHistory(db: Db, ops: seq<Op>, key: Resource, ip: Ip)
    requires Inv(db) && ExecAll(db, ops).Done?
    ensures var rest := WithoutRevocations(ops);
            Lists(ExecAll(db, ops).db, key, ip) <==>
              Current(rest, db.hosts[0].ip, key, ip)
              || (Lists(db, key, ip) && Undisturbed(rest, 0, db.hosts[0].ip, key, ip))
    decreases |ops|
  {
    if ops == [] {
    } else {
      ExecKeeps(db, ops[0]);
      ExecExtends(db, ops[0]);
      ExecLists(db, ops[0], key, ip);
      ListsIsHistory(Exec(db, ops[0]).db, ops[1..], key, ip);
      if !ops[0].Revocation? {
        HistoryTail(WithoutRevocations(ops), db.hosts[0].ip, key, ip);
      }
    }
  }

  lemma {:induction false} ExecLast(db: Db, ops: seq<Op>, op: Op)
    ensures ExecAll(db, ops + [op]).Done? <==> ExecAll(db, ops).Done? && Exec(ExecAll(db, ops).db, op).Done?
    ensures ExecAll(db, ops + [op]).Done? ==> ExecAll(db, ops + [op]).db == Exec(ExecAll(db, ops).db, op).db
    decreases |ops|
  {
    if ops == [] {
      assert ops + [op] == [op];
      match Exec(db, op)
      case Done(db1, _) => assert [op][1..] == [];
      case NullDereference =>
    } else {
      assert (ops + [op])[0] == ops[0] && (ops + [op])[1..] == ops[1..] + [op];
      match Exec(db, ops[0])
      case Done(db1, _) => ExecLast(db1, ops[1..], op);
      case NullDereference =>
    }
  }

  /** Over the life of a database remove_file answers as if no revocation had ever happened. */
  lemma RemoveAnswerIsHistory(local: Ip, ops: seq<Op>, key: Resource, ip: Ip)
    requires ExecAll(NewDb(local), ops + [Remove(key, ip)]).Done?
    ensures ExecAll(NewDb(local), ops).Done?
    ensures RemoveFile(ExecAll(NewDb(local), ops).db, key, ip).Done?
    ensures RemoveFile(ExecAll(NewDb(local), ops).db, key, ip).result <==>
              Current(WithoutRevocations(ops), local, key, ip)
  {
    ExecLast(NewDb(local), ops, Remove(key, ip));
    NewDbInv(local);
    RunRefines(NewDb(local), ops);
    RemoveResult(ExecAll(NewDb(local), ops).db, key, ip);
    ListsIsHistory(NewDb(local), ops, key, ip);
  }

  /** The promise that removing what the host does not have answers false fails after a revocation. */
  lemma RevokedRemovalSaysTrue(local: Ip, key: Resource)
    ensures var out := ExecAll(NewDb(local), [Add(key, local), Revocation(key)]);
            && out.Done? && (key, local) !in Rel(out.db)
            && RemoveFile(out.db, key, local).Done? && RemoveFile(out.db, key, local).result
  {
    var ops := [Add(key, local), Revocation(key)];
    NewDbInv(local);
    NoRemovalNoDeadPointer(NewDb(local), ops + [Remove(key, local)]);
    RemoveAnswerIsHistory(local, ops, key, local);
    PossessionIsHistory(local, ops, key, local);
    assert Withdraws(ops[1], local, key, local);
    assert ops[1..] == [Revocation(key)] && ops[1..][1..] == [];
    var rest := WithoutRevocations(ops);
    assert WithoutRevocations(ops[1..]) == WithoutRevocations([]) == [];
    assert rest == [Add(key, local)];
    assert Announces(rest[0], key, local) && Undisturbed(rest, 1, local, key, local);
  }

  lemma {:induction false} AddMissingFlags(db: Db, ip: Ip, keys: seq<Resource>, r: nat)
    requires r < |db.resources|
    ensures r < |AddMissing(db, ip, keys).resources|
    ensures AddMissing(db, ip, keys).resources[r].invalidated == db.resources[r].invalidated
    decreases |keys|
  {
    if keys == [] {
    } else {
      AddMissingFlags(AddOne(db, ip, keys[0]), ip, keys[1..], r);
    }
  }

  lemma RevokedBy(db: Db, op: Op, r: nat)
    requires Inv(db) && Exec(db, op).Done? && r < |db.resources|
    ensures r < |Exec(db, op).db.resources|
    ensures Exec(db, op).db.resources[r].invalidated <==>
              db.resources[r].invalidated || op == Revocation(db.resources[r].key)
  {
    match op
    case Beacon(ip, keys) => AddMissingFlags(WithHost(db, ip), ip, keys, r);
    case Gone(ip) => if 0 < FindIp(db.hosts, ip) < |db.hosts| { RemoveHostEffect(db, ip); }
    case _ =>
  }

  /** A resource is marked revoked exactly when it was stored and then revoked, and stays so. */
  lemma {:induction false} RevokedForGood(db: Db, ops: seq<Op>, r: nat)
    requires Inv(db) && ExecAll(db, ops).Done? && r < |db.resources|
    ensures r < |ExecAll(db, ops).db.resources|
    ensures ExecAll(db, ops).db.resources[r].invalidated <==>
              db.resources[r].invalidated || Revocation(db.resources[r].key) in ops
    decreases |ops|
  {
    RunRefines(db, ops);
    if ops == [] {
    } else {
      var db1 := Exec(db, ops[0]).db;
      ExecKeeps(db, ops[0]);
      ExecExtends(db, ops[0]);
      RevokedBy(db, ops[0], r);
      RevokedForGood(db1, ops[1..], r);
      assert ops == [ops[0]] + ops[1..];
    }
  }

  /** The design wants a resource revoked during its download never to be announced by the node that
      finishes it. The code announces it: storing the download adds it for localhost again. */
  lemma RevokedDownloadIsAnnounced(local: Ip, other: Ip, key: Resource)
    requires local != other
    ensures var out := ExecAll(NewDb(local), [Add(key, other), Revocation(key), Add(key, local)]);
            && out.Done? && (key, local) in Rel(out.db)
            && |out.db.resources| > 0 && out.db.resources[0].key == key && out.db.resources[0].invalidated
  {
    var ops := [Add(key, other), Revocation(key), Add(key, local)];
    NewDbInv(local);
    NoRemovalNoDeadPointer(NewDb(local), ops);
    PossessionIsHistory(local, ops, key, local);
    assert Announces(ops[2], key, local) && Undisturbed(ops, 3, local, key, local);
    var db1 := Exec(NewDb(local), ops[0]).db;
    ExecKeeps(NewDb(local), ops[0]);
    assert ExecAll(NewDb(local), ops) == ExecAll(db1, ops[1..]);
    assert ops[1] in ops[1..];
    RevokedForGood(db1, ops[1..], 0);
    RunRefines(db1, ops[1..]);
  }

  /** Exactly when a node is silent about a resource after its revocation: nothing after the
      revocation announces it anew. */
  lemma SilentAfterRevocationIff(local: Ip, before: seq<Op>, after: seq<Op>, key: Resource, ip: Ip)
    requires ExecAll(NewDb(local), before + [Revocation(key)] + after).Done?
    ensures (key, ip) in Rel(ExecAll(NewDb(local), before + [Revocation(key)] + after).db) <==>
              Current(after, local, key, ip)
  {
    var ops := before + [Revocation(key)] + after;
    var n := |before| + 1;
    PossessionIsHistory(local, ops, key, ip);
    assert Withdraws(ops[n - 1], local, key, ip);
    assert forall j: nat | j < |after| :: ops[n + j] == after[j];
    if i: nat :| i < |ops| && Announces(ops[i], key, ip) && Undisturbed(ops, i + 1, local, key, ip) {
      assert i >= n && after[i - n] == ops[i];
      assert Undisturbed(after, i - n + 1, local, key, ip);
    }
    if i: nat :| i < |after| && Announces(after[i], key, ip) && Undisturbed(after, i + 1, local, key, ip) {
      forall j: nat | n + i + 1 <= j < |ops| ensures !Withdraws(ops[j], local, key, ip) {
        assert ops[j] == after[j - n];
      }
      assert Announces(ops[n + i], key, ip) && Undisturbed(ops, n + i + 1, local, key, ip);
    }
  }

  // ----- Where dead pointers come from -----

  /** The resource points to a host that is gone. */
  ghost predicate Dangles(db: Db, key: Resource) {
    exists p: HostPtr :: Listed(db, FindResource(db.resources, key), p) > 0 && !Live(db, p)
  }

  /** Pointers are dead on one side exactly when they are on the other. */
  lemma SameDangles(db: Db, db': Db, key: Resource)
    requires forall p: HostPtr ::
               Listed(db, FindResource(db.resources, key), p) > 0 && !Live(db, p) <==>
               Listed(db', FindResource(db'.resources, key), p) > 0 && !Live(db', p)
    ensures Dangles(db', key) <==> Dangles(db, key)
  {
  }

  lemma WithResourceDangles(db: Db, key: Resource, k: Resource)
    requires Inv(db)
    ensures Dangles(WithResource(db, key), k) <==> Dangles(db, k)
  {
    if FindResource(db.resources, key) == |db.resources| {
      FindAppended(db.resources, ResourceEntry(key, false, []), k);
      assert forall r: nat, p: HostPtr :: Listed(WithResource(db, key), r, p) == Listed(db, r, p);
      SameDangles(db, WithResource(db, key), k);
    }
  }

  /** A new host gets a pointer no resource lists, so no dead pointer comes to life. */
  lemma WithHostDangles(db: Db, ip: Ip, k: Resource)
    requires Inv(db)
    ensures Dangles(WithHost(db, ip), k) <==> Dangles(db, k)
  {
    var db' := WithHost(db, ip);
    if FindIp(db.hosts, ip) == |db.hosts| {
      assert forall r: nat, p: HostPtr :: Listed(db', r, p) == Listed(db, r, p);
      forall p: HostPtr | p < db.next ensures Live(db', p) <==> Live(db, p) {
        if Live(db, p) { assert db'.hosts[Lock(db.hosts, p)].ptr == p; }
        if Live(db', p) { assert db.hosts[Lock(db'.hosts, p)].ptr == p; }
      }
      SameDangles(db, db', k);
    }
  }

  lemma LinkDangles(db: Db, r: nat, h: nat, k: Resource)
    requires Inv(db) && r < |db.resources| && h < |db.hosts|
    ensures Dangles(Link(db, r, h), k) <==> Dangles(db, k)
  {
    LinkEffect(db, r, h);
    SameHostsLock(db.hosts, Link(db, r, h).hosts);
    SameKeysFind(db.resources, Link(db, r, h).resources);
    LockIs(db, h);
    SameDangles(db, Link(db, r, h), k);
  }

  lemma AddFileDangles(db: Db, key: Resource, ip: Ip, k: Resource)
    requires Inv(db)
    ensures Dangles(AddFile(db, key, ip), k) <==> Dangles(db, k)
  {
    var db0 := WithResource(db, key);
    WithResourceKeeps(db, key);
    WithResourceDangles(db, key, k);
    WithHostKeeps(db0, ip);
    WithHostDangles(db0, ip, k);
    var db1 := WithHost(db0, ip);
    LinkDangles(db1, FindResource(db1.resources, key), FindIp(db1.hosts, ip), k);
  }

  lemma {:induction false} AddMissingDangles(db: Db, ip: Ip, keys: seq<Resource>, k: Resource)
    requires Inv(db)
    ensures Dangles(AddMissing(db, ip, keys), k) <==> Dangles(db, k)
    decreases |keys|
  {
    if keys == [] {
    } else {
      AddFileKeeps(db, keys[0], ip);
      AddFileDangles(db, keys[0], ip, k);
      AddMissingDangles(AddOne(db, ip, keys[0]), ip, keys[1..], k);
    }
  }

  lemma RemoveFileDangles(db: Db, key: Resource, ip: Ip, k: Resource)
    requires Inv(db) && RemoveFile(db, key, ip).Done?
    ensures Dangles(RemoveFile(db, key, ip).db, k) <==> Dangles(db, k)
  {
    var r := FindResource(db.resources, key);
    if r < |db.resources| {
      var f := FindHolder(db.hosts, db.resources[r].hosts, ip);
      if f.Holder? {
        UnlinkEffect(db, r, f.host);
        SameHostsLock(db.hosts, Unlink(db, r, f.host).hosts);
        SameKeysFind(db.resources, Unlink(db, r, f.host).resources);
        LockIs(db, f.host);
        SameDangles(db, Unlink(db, r, f.host), k);
      }
    }
  }

  lemma RevokeDangles(db: Db, key: Resource, k: Resource)
    requires Inv(db) && Revoke(db, key).Done?
    ensures Dangles(Revoke(db, key).db, k) <==> Dangles(db, k)
  {
    if FindResource(db.resources, key) < |db.resources| {
      var db' := Revoke(db, key).db;
      RevokeEffect(db, key);
      SameHostsLock(db.hosts, db'.hosts);
      SameKeysFind(db.resources, db'.resources);
      SameDangles(db, db', k);
    }
  }

  /** A host that goes leaves a dead pointer where it was listed without having the resource. */
  lemma RemoveHostDangles(db: Db, ip: Ip, k: Resource)
    requires Inv(db)
    ensures Dangles(RemoveHost(db, ip), k) <==>
              Dangles(db, k) || (ip != db.hosts[0].ip && Lists(db, k, ip) && !Has(db, k, ip))
  {
    var h, db', r := FindIp(db.hosts, ip), RemoveHost(db, ip), FindResource(db.resources, k);
    if 0 < h < |db.hosts| {
      var q := db.hosts[h].ptr;
      RemoveHostEffect(db, ip);
      SameKeysFind(db.resources, db'.resources);
      EraseKills(db, db', h);
      forall p: HostPtr | p != q ensures Live(db', p) <==> Live(db, p) {
        EraseKeepsLive(db, db', h, p);
      }
      LockIs(db, h);
      assert Lists(db, k, ip) <==> Listed(db, r, q) > 0;
      if Lists(db, k, ip) && !Has(db, k, ip) {
        assert Listed(db', r, q) > 0;
      } else {
        SameDangles(db, db', k);
      }
    }
  }

  lemma ExecDangles(db: Db, op: Op, k: Resource)
    requires Inv(db) && Exec(db, op).Done?
    ensures Dangles(Exec(db, op).db, k) <==>
              Dangles(db, k)
              || (op.Gone? && op.ip != db.hosts[0].ip && Lists(db, k, op.ip) && !Has(db, k, op.ip))
  {
    match op
    case Add(key, ip) => AddFileDangles(db, key, ip, k);
    case Remove(key, ip) => RemoveFileDangles(db, key, ip, k);
    case Beacon(ip, keys) =>
      WithHostKeeps(db, ip);
      WithHostDangles(db, ip, k);
      AddMissingDangles(WithHost(db, ip), ip, keys, k);
    case Revocation(key) => RevokeDangles(db, key, k);
    case Gone(ip) => RemoveHostDangles(db, ip, k);
  }

  /** Operation `j` removes a host that lost `key` to a revocation and neither removed nor announced it since. */
  ghost predicate LeavesDangling(ops: seq<Op>, j: nat, local: Ip, key: Resource)
    requires j < |ops|
  {
    && ops[j].Gone? && ops[j].ip != local
    && Current(WithoutRevocations(ops[..j]), local, key, ops[j].ip) && !Current(ops[..j], local, key, ops[j].ip)
  }

  lemma LeavesDanglingPrefix(ops: seq<Op>, n: nat, j: nat, local: Ip, key: Resource)
    requires j < n <= |ops|
    ensures LeavesDangling(ops[..n], j, local, key) <==> LeavesDangling(ops, j, local, key)
  {
    assert ops[..n][..j] == ops[..j];
  }

  /** The last operation of a run leaves a dead pointer exactly when the state before it says so. */
  lemma LeavesDanglingLast(local: Ip, before: seq<Op>, op: Op, key: Resource)
    requires ExecAll(NewDb(local), before).Done?
    ensures LeavesDangling(before + [op], |before|, local, key) <==>
              op.Gone? && op.ip != local
              && Lists(ExecAll(NewDb(local), before).db, key, op.ip) && !Has(ExecAll(NewDb(local), before).db, key, op.ip)
  {
    assert (before + [op])[..|before|] == before;
    if op.Gone? {
      NewDbInv(local);
      RunRefines(NewDb(local), before);
      PossessionIsHistory(local, before, key, op.ip);
      RelIsHas(ExecAll(NewDb(local), before).db);
      ListsIsHistory(NewDb(local), before, key, op.ip);
    }
  }

  /** Over the life of a database a resource points to a host that is gone exactly when some such
      removal happened. */
  lemma {:induction false} DanglesIsHistory(local: Ip, ops: seq<Op>, key: Resource)
    requires ExecAll(NewDb(local), ops).Done?
    ensures Dangles(ExecAll(NewDb(local), ops).db, key) <==>
              exists j: nat :: j < |ops| && LeavesDangling(ops, j, local, key)
    decreases |ops|
  {
    NewDbInv(local);
    if ops == [] {
    } else {
      var n := |ops| - 1;
      var before, op := ops[..n], ops[n];
      assert ops == before + [op];
      ExecLast(NewDb(local), before, op);
      RunRefines(NewDb(local), before);
      DanglesIsHistory(local, before, key);
      ExecDangles(ExecAll(NewDb(local), before).db, op, key);
      LeavesDanglingLast(local, before, op, key);
      forall j: nat | j < n { LeavesDanglingPrefix(ops, n, j, local, key); }
    }
  }

  /** Exactly when a revocation follows a dead pointer. */
  lemma RevocationCrashesIff(local: Ip, ops: seq<Op>, key: Resource)
    requires ExecAll(NewDb(local), ops).Done?
    ensures ExecAll(NewDb(local), ops + [Revocation(key)]).NullDereference? <==>
              exists j: nat :: j < |ops| && LeavesDangling(ops, j, local, key)
  {
    var db := ExecAll(NewDb(local), ops).db;
    ExecLast(NewDb(local), ops, Revocation(key));
    DanglesIsHistory(local, ops, key);
    var r := FindResource(db.resources, key);
    if r < |db.resources| {
      assert forall p: HostPtr :: Listed(db, r, p) > 0 <==> p in db.resources[r].hosts;
    }
  }

  lemma LostThenGone(local: Ip, other: Ip, key: Resource, ops: seq<Op>)
    requires local != other && ops == [Add(key, other), Revocation(key), Gone(other)]
    ensures LeavesDangling(ops, 2, local, key)
  {
    var before := ops[..2];
    assert Withdraws(before[1], local, key, other);
    assert before[1..][1..] == [] && WithoutRevocations(before[1..]) == WithoutRevocations([]) == [];
    var rest := WithoutRevocations(before);
    assert rest == [Add(key, other)];
    assert Announces(rest[0], key, other) && Undisturbed(rest, 1, local, key, other);
  }

  /** Such a run: a host is forgotten after the revocation of what it had, and the resource is revoked again. */
  lemma SecondRevocationCrashes(local: Ip, other: Ip, key: Resource)
    requires local != other
    ensures ExecAll(NewDb(local), [Add(key, other), Revocation(key), Gone(other)]).Done?
    ensures ExecAll(NewDb(local), [Add(key, other), Revocation(key), Gone(other), Revocation(key)]).NullDereference?
  {
    var before: seq<Op> := [Add(key, other), Revocation(key)];
    var ops := before + [Gone(other)];
    NewDbInv(local);
    NoRemovalNoDeadPointer(NewDb(local), before);
    ExecLast(NewDb(local), before, Gone(other));
    LostThenGone(local, other, key, ops);
    RevocationCrashesIff(local, ops, key);
    assert ops == [Add(key, other), Revocation(key), Gone(other)];
    assert ops + [Revocation(key)] == [Add(key, other), Revocation(key), Gone(other), Revocation(key)];
  }
}
