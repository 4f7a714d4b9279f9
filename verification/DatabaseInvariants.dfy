/** What every database operation keeps. */
module DatabaseInvariants {
  import opened ResourceHeaders
  import opened Database

  /** How often host `h` lists resource `r`, and how often `r` lists pointer `p`. */
  function Possessed(db: Db, h: nat, r: nat): nat {
    if h < |db.hosts| then multiset(db.hosts[h].possessed)[r] else 0
  }

  function Listed(db: Db, r: nat, p: HostPtr): nat {
    if r < |db.resources| then multiset(db.resources[r].hosts)[p] else 0
  }

  ghost predicate KeysDistinct(rs: seq<ResourceEntry>) {
    forall i: nat, j: nat | i < j < |rs| :: rs[i].key != rs[j].key
  }

  ghost predicate HostsDistinct(db: Db) {
    && (forall i: nat, j: nat | i < j < |db.hosts| ::
          db.hosts[i].ip != db.hosts[j].ip && db.hosts[i].ptr != db.hosts[j].ptr)
    && (forall i: nat | i < |db.hosts| :: db.hosts[i].ptr < db.next)
  }

  /** Hosts, and resources that were never revoked, point at stored objects only. */
  ghost predicate PointersValid(db: Db) {
    && (forall h: nat, r: nat | Possessed(db, h, r) > 0 :: r < |db.resources|)
    && (forall r: nat, p: HostPtr | Listed(db, r, p) > 0 ::
          p < db.next && (db.resources[r].invalidated || Live(db, p)))
  }

  /** The two directions agree, except that a revoked resource may still point to former hosts. */
  ghost predicate Balanced(db: Db) {
    forall h: nat, r: nat | h < |db.hosts| && r < |db.resources| ::
      && Possessed(db, h, r) <= Listed(db, r, db.hosts[h].ptr)
      && (!db.resources[r].invalidated ==> Possessed(db, h, r) == Listed(db, r, db.hosts[h].ptr))
  }

  ghost predicate Inv(db: Db) {
    |db.hosts| > 0 && KeysDistinct(db.resources) && HostsDistinct(db) && PointersValid(db) && Balanced(db)
  }

  lemma LockIs(db: Db, h: nat)
    requires HostsDistinct(db) && h < |db.hosts|
    ensures Lock(db.hosts, db.hosts[h].ptr) == h
  {
  }

  /** Same hosts, possibly with other lists. */
  ghost predicate SameHosts(hs: seq<HostEntry>, hs': seq<HostEntry>) {
    |hs| == |hs'| && forall i: nat | i < |hs| :: hs[i].ptr == hs'[i].ptr && hs[i].ip == hs'[i].ip
  }

  lemma SameHostsLock(hs: seq<HostEntry>, hs': seq<HostEntry>)
    requires SameHosts(hs, hs')
    ensures forall p :: Lock(hs, p) == Lock(hs', p)
    ensures forall ip :: FindIp(hs, ip) == FindIp(hs', ip)
  {
  }

  // ----- Adding -----

  lemma WithResourceKeeps(db: Db, key: Resource)
    requires Inv(db)
    ensures Inv(WithResource(db, key))
    ensures forall h: nat, r: nat :: Possessed(WithResource(db, key), h, r) == Possessed(db, h, r)
  {
    var db' := WithResource(db, key);
    var n := |db.resources|;
    if FindResource(db.resources, key) == n {
      assert db'.resources[n].key == key;
      assert forall h: nat, r: nat :: Possessed(db', h, r) == Possessed(db, h, r);
      assert forall r: nat, p: HostPtr :: Listed(db', r, p) == Listed(db, r, p);
    }
  }

  lemma WithHostKeeps(db: Db, ip: Ip)
    requires Inv(db)
    ensures Inv(WithHost(db, ip))
    ensures forall h: nat, r: nat :: Possessed(WithHost(db, ip), h, r) == Possessed(db, h, r)
  {
    var db' := WithHost(db, ip);
    var n := |db.hosts|;
    if FindIp(db.hosts, ip) == n {
      assert db'.hosts[n] == HostEntry(db.next, ip, []);
      assert forall h: nat, r: nat :: Possessed(db', h, r) == Possessed(db, h, r);
      assert forall r: nat, p: HostPtr :: Listed(db', r, p) == Listed(db, r, p);
      forall p: HostPtr | Live(db, p) ensures Live(db', p) {
        assert db'.hosts[Lock(db.hosts, p)].ptr == p;
      }
      assert forall r: nat :: Listed(db, r, db.next) == 0;
    }
  }

  lemma LinkEffect(db: Db, r: nat, h: nat)
    requires r < |db.resources| && h < |db.hosts|
    ensures SameHosts(db.hosts, Link(db, r, h).hosts)
    ensures forall g: nat, x: nat ::
              Possessed(Link(db, r, h), g, x) == Possessed(db, g, x) + if g == h && x == r then 1 else 0
    ensures forall x: nat, p: HostPtr ::
              Listed(Link(db, r, h), x, p) == Listed(db, x, p) + if x == r && p == db.hosts[h].ptr then 1 else 0
  {
  }

  lemma LinkKeeps(db: Db, r: nat, h: nat)
    requires Inv(db) && r < |db.resources| && h < |db.hosts|
    ensures Inv(Link(db, r, h))
  {
    LinkEffect(db, r, h);
    SameHostsLock(db.hosts, Link(db, r, h).hosts);
    LockIs(db, h);
  }

  lemma AddFileKeeps(db: Db, key: Resource, ip: Ip)
    requires Inv(db)
    ensures Inv(AddFile(db, key, ip))
  {
    WithResourceKeeps(db, key);
    WithHostKeeps(WithResource(db, key), ip);
    var db1 := WithHost(WithResource(db, key), ip);
    LinkKeeps(db1, FindResource(db1.resources, key), FindIp(db1.hosts, ip));
  }

  lemma {:induction false} AddMissingKeeps(db: Db, ip: Ip, keys: seq<Resource>)
    requires Inv(db)
    ensures Inv(AddMissing(db, ip, keys))
    decreases |keys|
  {
    if keys == [] {
    } else {
      AddFileKeeps(db, keys[0], ip);
      AddMissingKeeps(AddOne(db, ip, keys[0]), ip, keys[1..]);
    }
  }

  // ----- Removing -----

  lemma UnlinkEffect(db: Db, r: nat, h: nat)
    requires r < |db.resources| && h < |db.hosts|
    ensures SameHosts(db.hosts, Unlink(db, r, h).hosts)
    ensures forall g: nat, x: nat ::
              Possessed(Unlink(db, r, h), g, x) == if g == h && x == r then 0 else Possessed(db, g, x)
    ensures forall x: nat, p: HostPtr ::
              Listed(Unlink(db, r, h), x, p) == if x == r && p == db.hosts[h].ptr then 0 else Listed(db, x, p)
  {
  }

  lemma UnlinkKeeps(db: Db, r: nat, h: nat)
    requires Inv(db) && r < |db.resources| && h < |db.hosts|
    ensures Inv(Unlink(db, r, h))
  {
    UnlinkEffect(db, r, h);
    SameHostsLock(db.hosts, Unlink(db, r, h).hosts);
  }

  /** After the loop of revoke_resource the hosts pointed to no longer list the resource; nothing else moved. */
  lemma {:induction false} DisownEffect(hs: seq<HostEntry>, ptrs: seq<HostPtr>, r: nat)
    requires forall p | p in ptrs :: Lock(hs, p) < |hs|
    requires forall i: nat, j: nat | i < j < |hs| :: hs[i].ptr != hs[j].ptr
    ensures var hs' := Disown(hs, ptrs, r);
            SameHosts(hs, hs')
            && forall i: nat | i < |hs| ::
              multiset(hs'[i].possessed) ==
                 if hs[i].ptr in ptrs then multiset(hs[i].possessed)[r := 0] else multiset(hs[i].possessed)
    decreases |ptrs|
  {
    if ptrs == [] {
    } else {
      var i := Lock(hs, ptrs[0]);
      var hs1 := hs[i := hs[i].(possessed := Without(hs[i].possessed, r))];
      SameHostsLock(hs, hs1);
      DisownEffect(hs1, ptrs[1..], r);
    }
  }

  /** A revoked resource is in no host's list. */
  lemma RevokeEffect(db: Db, key: Resource)
    requires Inv(db) && Revoke(db, key).Done? && FindResource(db.resources, key) < |db.resources|
    ensures var db', r := Revoke(db, key).db, FindResource(db.resources, key);
            && SameHosts(db.hosts, db'.hosts) && |db'.resources| == |db.resources| && db'.next == db.next
            && (forall h: nat, x: nat :: Possessed(db', h, x) == if x == r then 0 else Possessed(db, h, x))
            && (forall x: nat, p: HostPtr :: Listed(db', x, p) == Listed(db, x, p))
  {
    var db', r := Revoke(db, key).db, FindResource(db.resources, key);
    var ptrs := db.resources[r].hosts;
    DisownEffect(db.hosts, ptrs, r);
    forall h: nat, x: nat ensures Possessed(db', h, x) == if x == r then 0 else Possessed(db, h, x) {
      if h < |db.hosts| && db.hosts[h].ptr !in ptrs {
        assert db.hosts[h].ptr !in multiset(ptrs);
        assert Possessed(db, h, r) <= Listed(db, r, db.hosts[h].ptr);
      }
    }
  }

  lemma RevokeKeeps(db: Db, key: Resource)
    requires Inv(db) && Revoke(db, key).Done?
    ensures Inv(Revoke(db, key).db)
  {
    if FindResource(db.resources, key) < |db.resources| {
      RevokeEffect(db, key);
      SameHostsLock(db.hosts, Revoke(db, key).db.hosts);
    }
  }

  // ----- A host that is gone -----

  lemma {:induction false} ForgetEffect(rs: seq<ResourceEntry>, owned: seq<nat>, p: HostPtr)
    ensures var rs' := Forget(rs, owned, p);
            forall r: nat | r < |rs| ::
              && rs'[r].key == rs[r].key && rs'[r].invalidated == rs[r].invalidated
              && multiset(rs'[r].hosts) == if r in owned then multiset(rs[r].hosts)[p := 0] else multiset(rs[r].hosts)
    decreases |owned|
  {
    if owned == [] {
    } else {
      if owned[0] < |rs| {
        ForgetEffect(rs[owned[0] := rs[owned[0]].(hosts := Without(rs[owned[0]].hosts, p))], owned[1..], p);
      } else {
        ForgetEffect(rs, owned[1..], p);
      }
    }
  }

  /** Erasing one host leaves every other pointer as it was, live or dead. */
  lemma EraseKeepsLive(db: Db, db': Db, h: nat, p: HostPtr)
    requires h < |db.hosts| && p != db.hosts[h].ptr && db'.hosts == db.hosts[..h] + db.hosts[h + 1..]
    ensures Live(db, p) <==> Live(db', p)
  {
    var i, g := Lock(db.hosts, p), Lock(db'.hosts, p);
    if i < |db.hosts| {
      assert db'.hosts[if i < h then i else i - 1].ptr == p;
    }
    if g < |db'.hosts| {
      assert db.hosts[if g < h then g else g + 1].ptr == p;
    }
  }

  /** The pointer of the erased host is dead. */
  lemma EraseKills(db: Db, db': Db, h: nat)
    requires HostsDistinct(db) && h < |db.hosts| && db'.hosts == db.hosts[..h] + db.hosts[h + 1..]
    ensures !Live(db', db.hosts[h].ptr)
  {
    assert forall g: nat | g < |db'.hosts| :: db'.hosts[g] == db.hosts[if g < h then g else g + 1];
  }

  /** The lists after a host is gone: its own is dropped, and so is its pointer wherever the host
      listed the resource; elsewhere, which is in revoked resources only, it dangles. */
  lemma RemoveHostEffect(db: Db, ip: Ip)
    requires 0 < FindIp(db.hosts, ip) < |db.hosts|
    ensures var h, db' := FindIp(db.hosts, ip), RemoveHost(db, ip);
            && |db'.resources| == |db.resources|
            && (forall r: nat | r < |db.resources| ::
                  db'.resources[r].key == db.resources[r].key && db'.resources[r].invalidated == db.resources[r].invalidated)
            && (forall r: nat, p: HostPtr ::
                  Listed(db', r, p) == if p == db.hosts[h].ptr && Possessed(db, h, r) > 0 then 0 else Listed(db, r, p))
  {
    var h, db' := FindIp(db.hosts, ip), RemoveHost(db, ip);
    var p, owned := db.hosts[h].ptr, db.hosts[h].possessed;
    ForgetEffect(db.resources, owned, p);
    forall r: nat, q: HostPtr
      ensures Listed(db', r, q) == if q == p && Possessed(db, h, r) > 0 then 0 else Listed(db, r, q)
    {
      assert r in owned <==> r in multiset(owned);
    }
  }

  /** The hosts after the one at `h` is erased. */
  lemma EraseEffect(db: Db, db': Db, h: nat)
    requires h < |db.hosts| && db'.hosts == db.hosts[..h] + db.hosts[h + 1..]
    ensures forall g: nat | g < |db'.hosts| :: db'.hosts[g] == db.hosts[if g < h then g else g + 1]
    ensures forall g: nat, r: nat :: Possessed(db', g, r) == Possessed(db, if g < h then g else g + 1, r)
  {
  }

  lemma RemoveHostBalanced(db: Db, db': Db, h: nat)
    requires HostsDistinct(db) && Balanced(db) && h < |db.hosts| && db'.hosts == db.hosts[..h] + db.hosts[h + 1..]
    requires |db'.resources| == |db.resources|
    requires forall r: nat | r < |db.resources| :: db'.resources[r].invalidated == db.resources[r].invalidated
    requires forall r: nat, p: HostPtr | p != db.hosts[h].ptr :: Listed(db', r, p) == Listed(db, r, p)
    ensures Balanced(db')
  {
    forall g: nat, r: nat | g < |db'.hosts| && r < |db'.resources|
      ensures Possessed(db', g, r) <= Listed(db', r, db'.hosts[g].ptr)
      ensures !db'.resources[r].invalidated ==> Possessed(db', g, r) == Listed(db', r, db'.hosts[g].ptr)
    {
      var g0 := if g < h then g else g + 1;
      assert db'.hosts[g] == db.hosts[g0];
      assert Possessed(db, g0, r) <= Listed(db, r, db.hosts[g0].ptr);
    }
  }

  lemma RemoveHostKeeps(db: Db, ip: Ip)
    requires Inv(db)
    ensures Inv(RemoveHost(db, ip))
  {
    var h := FindIp(db.hosts, ip);
    if 0 < h < |db.hosts| {
      var db' := RemoveHost(db, ip);
      RemoveHostEffect(db, ip);
      EraseEffect(db, db', h);
      RemoveHostBalanced(db, db', h);
      forall r: nat, q: HostPtr | Listed(db', r, q) > 0
        ensures q < db'.next && (db'.resources[r].invalidated || Live(db', q))
      {
        assert Listed(db, r, q) > 0;
        if !db.resources[r].invalidated {
          assert Possessed(db, h, r) == Listed(db, r, db.hosts[h].ptr);
          EraseKeepsLive(db, db', h, q);
        }
      }
    }
  }

  /** Every operation keeps the invariant. */
  lemma ExecKeeps(db: Db, op: Op)
    requires Inv(db) && Exec(db, op).Done?
    ensures Inv(Exec(db, op).db)
  {
    match op
    case Add(key, ip) => AddFileKeeps(db, key, ip);
    case Remove(key, ip) =>
      var r := FindResource(db.resources, key);
      if r < |db.resources| {
        var f := FindHolder(db.hosts, db.resources[r].hosts, ip);
        if f.Holder? { UnlinkKeeps(db, r, f.host); }
      }
    case Beacon(ip, keys) =>
      WithHostKeeps(db, ip);
      AddMissingKeeps(WithHost(db, ip), ip, keys);
    case Revocation(key) => RevokeKeeps(db, key);
    case Gone(ip) => RemoveHostKeeps(db, ip);
  }
}
