/** The lists themselves, with their order and repetitions, and what is stored and revoked, told from the history. */
module DatabaseLists {
  import opened ResourceHeaders
  import opened Database
  import opened DatabaseInvariants
  import opened DatabaseTheorems
  import opened DatabaseOrder

  // ----- What a host has, as a list -----

  function KeysAt(rs: seq<ResourceEntry>, indices: seq<nat>): seq<Resource> {
    if indices == [] then []
    else (if indices[0] < |rs| then [rs[indices[0]].key] else []) + KeysAt(rs, indices[1..])
  }

  /** The resources of the host with that address, in list order and with repetitions. */
  function KeysOf(db: Db, ip: Ip): seq<Resource> {
    var h := FindIp(db.hosts, ip);
    if h < |db.hosts| then KeysAt(db.resources, db.hosts[h].possessed) else []
  }

  /** A beacon on a plain list: what is not in it yet is appended. */
  function Merged(list: seq<Resource>, keys: seq<Resource>): seq<Resource>
    decreases |keys|
  {
    if keys == [] then list
    else Merged(if keys[0] in list then list else list + [keys[0]], keys[1..])
  }

  function ListStep(list: seq<Resource>, op: Op, local: Ip, ip: Ip): seq<Resource> {
    match op
    case Add(key, i) => if i == ip then list + [key] else list
    case Remove(key, i) => if i == ip then Without(list, key) else list
    case Beacon(i, keys) => if i == ip then Merged(list, keys) else list
    case Revocation(key) => Without(list, key)
    case Gone(i) => if i == ip && ip != local then [] else list
  }

  function ListAll(list: seq<Resource>, ops: seq<Op>, local: Ip, ip: Ip): seq<Resource>
    decreases |ops|
  {
    if ops == [] then list else ListAll(ListStep(list, ops[0], local, ip), ops[1..], local, ip)
  }

  lemma {:induction false} KeysAtSame(rs: seq<ResourceEntry>, rs': seq<ResourceEntry>, indices: seq<nat>)
    requires |rs| <= |rs'| && forall x: nat | x < |rs| :: rs'[x].key == rs[x].key
    requires forall j: nat | j < |indices| :: indices[j] < |rs|
    ensures KeysAt(rs', indices) == KeysAt(rs, indices)
  {
    if indices == [] {
    } else {
      assert indices[0] < |rs|;
      KeysAtSame(rs, rs', indices[1..]);
    }
  }

  lemma {:induction false} KeysAtAppend(rs: seq<ResourceEntry>, indices: seq<nat>, r: nat)
    requires r < |rs|
    ensures KeysAt(rs, indices + [r]) == KeysAt(rs, indices) + [rs[r].key]
  {
    if indices == [] {
      assert indices + [r] == [r] && [r][1..] == [];
    } else {
      assert (indices + [r])[0] == indices[0] && (indices + [r])[1..] == indices[1..] + [r];
      KeysAtAppend(rs, indices[1..], r);
    }
  }

  lemma WithoutFirst<T>(x: T, s: seq<T>, y: T)
    ensures Without([x] + s, y) == if x == y then Without(s, y) else [x] + Without(s, y)
  {
    assert ([x] + s)[1..] == s;
  }

  lemma {:induction false} KeysAtWithout(rs: seq<ResourceEntry>, indices: seq<nat>, r: nat)
    requires r < |rs| && KeysDistinct(rs) && forall j: nat | j < |indices| :: indices[j] < |rs|
    ensures KeysAt(rs, Without<nat>(indices, r)) == Without(KeysAt(rs, indices), rs[r].key)
  {
    if indices == [] {
    } else {
      var x, rest := indices[0], indices[1..];
      assert x < |rs|;
      KeysAtWithout(rs, rest, r);
      WithoutFirst(rs[x].key, KeysAt(rs, rest), rs[r].key);
      if x != r {
        assert rs[x].key != rs[r].key;
        var w := [x] + Without<nat>(rest, r);
        assert Without<nat>(indices, r) == w && w[1..] == Without<nat>(rest, r);
      }
    }
  }

  lemma {:induction false} WithoutNothing<T>(s: seq<T>, x: T)
    requires x !in s
    ensures Without(s, x) == s
  {
    if s == [] {
    } else {
      WithoutNothing(s[1..], x);
    }
  }

  lemma {:induction false} KeysAtIn(rs: seq<ResourceEntry>, indices: seq<nat>, r: nat)
    requires r < |rs| && KeysDistinct(rs) && forall j: nat | j < |indices| :: indices[j] < |rs|
    ensures rs[r].key in KeysAt(rs, indices) <==> r in indices
  {
    if indices == [] {
    } else {
      var x := indices[0];
      assert x < |rs|;
      KeysAtIn(rs, indices[1..], r);
      if x != r { assert rs[x].key != rs[r].key; }
    }
  }

  lemma {:induction false} KeysAtStored(rs: seq<ResourceEntry>, indices: seq<nat>, key: Resource)
    requires key in KeysAt(rs, indices)
    ensures FindResource(rs, key) < |rs|
  {
    var x := indices[0];
    if x < |rs| && rs[x].key == key {
    } else {
      KeysAtStored(rs, indices[1..], key);
    }
  }

  lemma InRange(db: Db, h: nat)
    requires Inv(db) && h < |db.hosts|
    ensures forall j: nat | j < |db.hosts[h].possessed| :: db.hosts[h].possessed[j] < |db.resources|
  {
    var s := db.hosts[h].possessed;
    forall j: nat | j < |s| ensures s[j] < |db.resources| {
      assert s[j] in multiset(s);
      assert Possessed(db, h, s[j]) > 0;
    }
  }

  /** The list has the resource exactly when the relation does. */
  lemma HasIsKey(db: Db, key: Resource, ip: Ip)
    requires Inv(db)
    ensures key in KeysOf(db, ip) <==> Has(db, key, ip)
  {
    var h, r := FindIp(db.hosts, ip), FindResource(db.resources, key);
    if h < |db.hosts| {
      var s := db.hosts[h].possessed;
      InRange(db, h);
      if key in KeysOf(db, ip) { KeysAtStored(db.resources, s, key); }
      if r < |db.resources| {
        KeysAtIn(db.resources, s, r);
        assert r in s <==> r in multiset(s);
      }
      if Has(db, key, ip) { assert Possessed(db, h, r) > 0; }
    }
  }

  // ----- Each operation on the lists -----

  lemma WithResourceKeys(db: Db, key: Resource, ip: Ip)
    requires Inv(db)
    ensures KeysOf(WithResource(db, key), ip) == KeysOf(db, ip)
  {
    var h := FindIp(db.hosts, ip);
    if h < |db.hosts| {
      InRange(db, h);
      KeysAtSame(db.resources, WithResource(db, key).resources, db.hosts[h].possessed);
    }
  }

  lemma WithHostKeys(db: Db, ip: Ip, i: Ip)
    ensures KeysOf(WithHost(db, ip), i) == KeysOf(db, i)
  {
    if FindIp(db.hosts, ip) == |db.hosts| {
      FindIpAppended(db.hosts, HostEntry(db.next, ip, []), i);
    }
  }

  lemma LinkKeys(db: Db, r: nat, h: nat, i: Ip)
    requires Inv(db) && r < |db.resources| && h < |db.hosts|
    ensures KeysOf(Link(db, r, h), i) == KeysOf(db, i) + if i == db.hosts[h].ip then [db.resources[r].key] else []
  {
    var db', g := Link(db, r, h), FindIp(db.hosts, i);
    LinkEffect(db, r, h);
    SameHostsLock(db.hosts, db'.hosts);
    if g < |db.hosts| {
      InRange(db, g);
      KeysAtSame(db.resources, db'.resources, db.hosts[g].possessed);
      if g == h {
        KeysAtAppend(db'.resources, db.hosts[h].possessed, r);
      } else {
        assert i != db.hosts[h].ip;
      }
    }
  }

  lemma AddFileKeys(db: Db, key: Resource, ip: Ip, i: Ip)
    requires Inv(db)
    ensures KeysOf(AddFile(db, key, ip), i) == KeysOf(db, i) + if i == ip then [key] else []
  {
    var db0 := WithResource(db, key);
    var db1 := WithHost(db0, ip);
    WithResourceKeeps(db, key);
    WithHostKeeps(db0, ip);
    WithResourceKeys(db, key, i);
    WithHostKeys(db0, ip, i);
    LinkKeys(db1, FindResource(db1.resources, key), FindIp(db1.hosts, ip), i);
  }

  lemma AddOneKeys(db: Db, ip: Ip, key: Resource, i: Ip)
    requires Inv(db)
    ensures KeysOf(AddOne(db, ip, key), i) == if i == ip then Merged(KeysOf(db, i), [key]) else KeysOf(db, i)
  {
    var h := FindIp(db.hosts, ip);
    AddFileKeys(db, key, ip, i);
    HasIsKey(db, key, ip);
    if h < |db.hosts| { HostHasIsHas(db, h, key); }
    assert [key][1..] == [];
  }

  lemma MergedFirst(list: seq<Resource>, keys: seq<Resource>)
    requires keys != []
    ensures Merged(list, keys) == Merged(Merged(list, [keys[0]]), keys[1..])
  {
    assert [keys[0]][1..] == [];
  }

  lemma {:induction false} AddMissingKeys(db: Db, ip: Ip, keys: seq<Resource>, i: Ip)
    requires Inv(db)
    ensures KeysOf(AddMissing(db, ip, keys), i) == if i == ip then Merged(KeysOf(db, i), keys) else KeysOf(db, i)
    decreases |keys|
  {
    if keys == [] {
    } else {
      AddFileKeeps(db, keys[0], ip);
      AddOneKeys(db, ip, keys[0], i);
      AddMissingKeys(AddOne(db, ip, keys[0]), ip, keys[1..], i);
      MergedFirst(KeysOf(db, i), keys);
    }
  }

  lemma WithoutInRange(s: seq<nat>, w: seq<nat>, r: nat, n: nat)
    requires w == Without(s, r) && forall j: nat | j < |s| :: s[j] < n
    ensures forall j: nat | j < |w| :: w[j] < n
  {
    forall j: nat | j < |w| ensures w[j] < n {
      assert w[j] in multiset(w);
      assert w[j] in multiset(s);
    }
  }

  /** The keys of a shortened list. */
  lemma ShortenedKeys(rs: seq<ResourceEntry>, rs': seq<ResourceEntry>, s: seq<nat>, r: nat)
    requires r < |rs| == |rs'| && KeysDistinct(rs) && forall x: nat | x < |rs| :: rs'[x].key == rs[x].key
    requires forall j: nat | j < |s| :: s[j] < |rs|
    ensures KeysAt(rs', Without<nat>(s, r)) == Without(KeysAt(rs, s), rs[r].key)
  {
    var w := Without<nat>(s, r);
    WithoutInRange(s, w, r, |rs|);
    KeysAtSame(rs, rs', w);
    KeysAtWithout(rs, s, r);
  }

  lemma UnlinkKeys(db: Db, r: nat, h: nat, i: Ip)
    requires Inv(db) && r < |db.resources| && h < |db.hosts|
    ensures KeysOf(Unlink(db, r, h), i) ==
              if i == db.hosts[h].ip then Without(KeysOf(db, i), db.resources[r].key) else KeysOf(db, i)
  {
    var db', g := Unlink(db, r, h), FindIp(db.hosts, i);
    UnlinkEffect(db, r, h);
    SameHostsLock(db.hosts, db'.hosts);
    if g < |db.hosts| {
      InRange(db, g);
      if g == h {
        ShortenedKeys(db.resources, db'.resources, db.hosts[g].possessed, r);
      } else {
        KeysAtSame(db.resources, db'.resources, db.hosts[g].possessed);
        assert i != db.hosts[h].ip;
      }
    }
  }

  lemma RemoveFileKeys(db: Db, key: Resource, ip: Ip, i: Ip)
    requires Inv(db) && RemoveFile(db, key, ip).Done?
    ensures KeysOf(RemoveFile(db, key, ip).db, i) == if i == ip then Without(KeysOf(db, i), key) else KeysOf(db, i)
  {
    var r := FindResource(db.resources, key);
    RemoveResult(db, key, ip);
    if RemoveFile(db, key, ip).result {
      UnlinkKeys(db, r, FindHolder(db.hosts, db.resources[r].hosts, ip).host, i);
    } else if i == ip {
      HasIsListed(db, key, ip);
      HasIsKey(db, key, ip);
      WithoutNothing(KeysOf(db, i), key);
    }
  }

  lemma {:induction false} DisownPossessed(hs: seq<HostEntry>, ptrs: seq<HostPtr>, r: nat, h: nat)
    requires forall p | p in ptrs :: Lock(hs, p) < |hs|
    requires forall i: nat, j: nat | i < j < |hs| :: hs[i].ptr != hs[j].ptr
    requires h < |hs|
    ensures Disown(hs, ptrs, r)[h].possessed == if hs[h].ptr in ptrs then Without<nat>(hs[h].possessed, r) else hs[h].possessed
    decreases |ptrs|
  {
    if ptrs == [] {
    } else {
      var i := Lock(hs, ptrs[0]);
      var hs1 := hs[i := hs[i].(possessed := Without<nat>(hs[i].possessed, r))];
      SameHostsLock(hs, hs1);
      DisownPossessed(hs1, ptrs[1..], r, h);
      WithoutTwice(hs[h].possessed, r);
    }
  }

  /** A host the resource does not point to does not have it. */
  lemma UnlistedLacks(db: Db, r: nat, h: nat)
    requires Inv(db) && r < |db.resources| && h < |db.hosts| && db.hosts[h].ptr !in db.resources[r].hosts
    ensures Without<nat>(db.hosts[h].possessed, r) == db.hosts[h].possessed
  {
    ListedIn(db, r);
    assert Possessed(db, h, r) <= Listed(db, r, db.hosts[h].ptr);
    assert r !in multiset(db.hosts[h].possessed);
    WithoutNothing<nat>(db.hosts[h].possessed, r);
  }

  lemma RevokeKeysAt(db: Db, key: Resource, h: nat)
    requires Inv(db) && Revoke(db, key).Done? && FindResource(db.resources, key) < |db.resources| && h < |db.hosts|
    ensures var db' := Revoke(db, key).db;
            && |db'.hosts| == |db.hosts|
            && KeysAt(db'.resources, db'.hosts[h].possessed) == Without(KeysAt(db.resources, db.hosts[h].possessed), key)
  {
    var r, db' := FindResource(db.resources, key), Revoke(db, key).db;
    var ptrs, s := db.resources[r].hosts, db.hosts[h].possessed;
    InRange(db, h);
    DisownPossessed(db.hosts, ptrs, r, h);
    if db.hosts[h].ptr !in ptrs { UnlistedLacks(db, r, h); }
    assert db'.hosts[h].possessed == Without<nat>(s, r);
    ShortenedKeys(db.resources, db'.resources, s, r);
  }

  lemma RevokeKeys(db: Db, key: Resource, i: Ip)
    requires Inv(db) && Revoke(db, key).Done?
    ensures KeysOf(Revoke(db, key).db, i) == Without(KeysOf(db, i), key)
  {
    var r, h, db' := FindResource(db.resources, key), FindIp(db.hosts, i), Revoke(db, key).db;
    if r == |db.resources| || h == |db.hosts| {
      HasIsKey(db, key, i);
      WithoutNothing(KeysOf(db, i), key);
      if r < |db.resources| {
        RevokeEffect(db, key);
        SameHostsLock(db.hosts, db'.hosts);
      }
    } else {
      RevokeKeysAt(db, key, h);
      RevokeEffect(db, key);
      SameHostsLock(db.hosts, db'.hosts);
    }
  }

  lemma EraseKeys(db: Db, db': Db, h: nat, i: Ip)
    requires Inv(db) && h < |db.hosts| && db'.hosts == db.hosts[..h] + db.hosts[h + 1..]
    requires |db'.resources| == |db.resources|
    requires forall r: nat | r < |db.resources| :: db'.resources[r].key == db.resources[r].key
    ensures KeysOf(db', i) == if i == db.hosts[h].ip then [] else KeysOf(db, i)
  {
    var a, b := FindIp(db.hosts, i), FindIp(db'.hosts, i);
    EraseFindIp(db.hosts, h, i);
    if a < |db.hosts| && a != h {
      assert db'.hosts[b] == db.hosts[a];
      InRange(db, a);
      KeysAtSame(db.resources, db'.resources, db.hosts[a].possessed);
    }
  }

  lemma RemoveHostKeys(db: Db, ip: Ip, i: Ip)
    requires Inv(db)
    ensures KeysOf(RemoveHost(db, ip), i) == if i == ip && ip != db.hosts[0].ip then [] else KeysOf(db, i)
  {
    var h := FindIp(db.hosts, ip);
    if 0 < h < |db.hosts| {
      RemoveHostEffect(db, ip);
      EraseKeys(db, RemoveHost(db, ip), h, i);
    }
  }

  /** Every operation on the database is its plain operation on each host's list. */
  lemma ExecKeys(db: Db, op: Op, ip: Ip)
    requires Inv(db) && Exec(db, op).Done?
    ensures KeysOf(Exec(db, op).db, ip) == ListStep(KeysOf(db, ip), op, db.hosts[0].ip, ip)
  {
    match op
    case Add(key, i) => AddFileKeys(db, key, i, ip);
    case Remove(key, i) => RemoveFileKeys(db, key, i, ip);
    case Beacon(i, keys) =>
      WithHostKeeps(db, i);
      WithHostKeys(db, i, ip);
      AddMissingKeys(WithHost(db, i), i, keys, ip);
    case Revocation(key) => RevokeKeys(db, key, ip);
    case Gone(i) => RemoveHostKeys(db, i, ip);
  }

  lemma {:induction false} RunKeys(db: Db, ops: seq<Op>, ip: Ip)
    requires Inv(db) && ExecAll(db, ops).Done?
    ensures KeysOf(ExecAll(db, ops).db, ip) == ListAll(KeysOf(db, ip), ops, db.hosts[0].ip, ip)
    decreases |ops|
  {
    if ops == [] {
    } else {
      ExecKeeps(db, ops[0]);
      ExecExtends(db, ops[0]);
      ExecKeys(db, ops[0], ip);
      RunKeys(Exec(db, ops[0]).db, ops[1..], ip);
    }
  }

  // ----- What beacons do not do -----

  ghost predicate Distinct(s: seq<Resource>) { forall i: nat, j: nat | i < j < |s| :: s[i] != s[j] }

  lemma {:induction false} MergedCount(list: seq<Resource>, keys: seq<Resource>, k: Resource)
    ensures multiset(Merged(list, keys))[k] == multiset(list)[k] + if k in keys && k !in list then 1 else 0
    decreases |keys|
  {
    if keys == [] {
    } else {
      MergedCount(if keys[0] in list then list else list + [keys[0]], keys[1..], k);
    }
  }

  /** Merging keeps the old list in front, adds what is new, and repeats nothing that was not repeated. */
  lemma {:induction false} MergedEffect(list: seq<Resource>, keys: seq<Resource>)
    ensures list <= Merged(list, keys)
    ensures forall k :: k in Merged(list, keys) <==> k in list || k in keys
    ensures Distinct(list) ==> Distinct(Merged(list, keys))
    decreases |keys|
  {
    if keys == [] {
    } else {
      MergedEffect(if keys[0] in list then list else list + [keys[0]], keys[1..]);
    }
  }

  lemma {:induction false} WithoutDistinct(s: seq<Resource>, x: Resource)
    requires Distinct(s)
    ensures Distinct(Without(s, x))
  {
    if s == [] {
    } else {
      WithoutDistinct(s[1..], x);
      var w := Without(s[1..], x);
      forall j: nat | j < |w| ensures w[j] != s[0] {
        assert w[j] in multiset(w) && w[j] in multiset(s[1..]);
      }
    }
  }

  /** A host that is known by its beacons only has no resource twice in its list. */
  lemma {:induction false} BeaconsRepeatNothing(list: seq<Resource>, ops: seq<Op>, local: Ip, ip: Ip)
    requires Distinct(list) && forall j: nat | j < |ops| :: ops[j].Add? ==> ops[j].ip != ip
    ensures Distinct(ListAll(list, ops, local, ip))
    decreases |ops|
  {
    if ops == [] {
    } else {
      match ops[0] {
        case Remove(key, _) => WithoutDistinct(list, key);
        case Revocation(key) => WithoutDistinct(list, key);
        case Beacon(_, keys) => MergedEffect(list, keys);
        case _ =>
      }
      BeaconsRepeatNothing(ListStep(list, ops[0], local, ip), ops[1..], local, ip);
    }
  }

  // ----- Which hosts are stored -----

  predicate Known(db: Db, ip: Ip) { FindIp(db.hosts, ip) < |db.hosts| }

  /** The operation stores the host if it is not stored yet. */
  predicate Introduces(op: Op, ip: Ip) { (op.Add? || op.Beacon?) && op.ip == ip }

  predicate Dismisses(op: Op, local: Ip, ip: Ip) { op == Gone(ip) && ip != local }

  lemma WithHostKnown(db: Db, ip: Ip, i: Ip)
    ensures Known(WithHost(db, ip), i) <==> Known(db, i) || i == ip
  {
    if FindIp(db.hosts, ip) == |db.hosts| { FindIpAppended(db.hosts, HostEntry(db.next, ip, []), i); }
  }

  lemma AddFileKnown(db: Db, key: Resource, ip: Ip, i: Ip)
    ensures Known(AddFile(db, key, ip), i) <==> Known(db, i) || i == ip
  {
    var db1 := WithHost(WithResource(db, key), ip);
    WithHostKnown(WithResource(db, key), ip, i);
    var r, h := FindResource(db1.resources, key), FindIp(db1.hosts, ip);
    LinkEffect(db1, r, h);
    SameHostsLock(db1.hosts, Link(db1, r, h).hosts);
  }

  lemma {:induction false} AddMissingKnown(db: Db, ip: Ip, keys: seq<Resource>, i: Ip)
    requires Known(db, ip)
    ensures Known(AddMissing(db, ip, keys), i) <==> Known(db, i)
    decreases |keys|
  {
    if keys == [] {
    } else {
      AddFileKnown(db, keys[0], ip, i);
      AddFileKnown(db, keys[0], ip, ip);
      AddMissingKnown(AddOne(db, ip, keys[0]), ip, keys[1..], i);
    }
  }

  lemma RemoveFileKnown(db: Db, key: Resource, ip: Ip, i: Ip)
    requires RemoveFile(db, key, ip).Done?
    ensures Known(RemoveFile(db, key, ip).db, i) <==> Known(db, i)
  {
    if RemoveFile(db, key, ip).result { SameHostsLock(db.hosts, RemoveFile(db, key, ip).db.hosts); }
  }

  lemma RevokeKnown(db: Db, key: Resource, i: Ip)
    requires Inv(db) && Revoke(db, key).Done?
    ensures Known(Revoke(db, key).db, i) <==> Known(db, i)
  {
    if FindResource(db.resources, key) < |db.resources| {
      RevokeEffect(db, key);
      SameHostsLock(db.hosts, Revoke(db, key).db.hosts);
    }
  }

  lemma ExecKnown(db: Db, op: Op, i: Ip)
    requires Inv(db) && Exec(db, op).Done?
    ensures Known(Exec(db, op).db, i) <==> Introduces(op, i) || (Known(db, i) && !Dismisses(op, db.hosts[0].ip, i))
  {
    match op
    case Add(key, ip) => AddFileKnown(db, key, ip, i);
    case Remove(key, ip) => RemoveFileKnown(db, key, ip, i);
    case Beacon(ip, keys) =>
      WithHostKnown(db, ip, i);
      WithHostKnown(db, ip, ip);
      AddMissingKnown(WithHost(db, ip), ip, keys, i);
    case Revocation(key) => RevokeKnown(db, key, i);
    case Gone(ip) =>
      var h := FindIp(db.hosts, ip);
      if 0 < h < |db.hosts| { EraseFindIp(db.hosts, h, i); }
  }

  /** Operation `t` introduced the host and nothing since, before operation `n`, dismissed it. */
  ghost predicate KnownFrom(ops: seq<Op>, t: nat, n: nat, local: Ip, ip: Ip) {
    t < n <= |ops| && Introduces(ops[t], ip) && forall m: nat | t < m < n :: !Dismisses(ops[m], local, ip)
  }

  ghost predicate KnownNow(ops: seq<Op>, n: nat, local: Ip, ip: Ip) {
    ip == local || exists t: nat :: KnownFrom(ops, t, n, local, ip)
  }

  lemma KnownNowNext(ops: seq<Op>, n: nat, local: Ip, ip: Ip)
    requires n < |ops|
    ensures KnownNow(ops, n + 1, local, ip) <==>
              Introduces(ops[n], ip) || (KnownNow(ops, n, local, ip) && !Dismisses(ops[n], local, ip)) || ip == local
  {
    var m := n + 1;
    if Introduces(ops[n], ip) { assert KnownFrom(ops, n, m, local, ip); }
    if t: nat :| KnownFrom(ops, t, n, local, ip) && !Dismisses(ops[n], local, ip) {
      assert KnownFrom(ops, t, m, local, ip);
    }
    if t: nat :| KnownFrom(ops, t, m, local, ip) && t < n { assert KnownFrom(ops, t, n, local, ip); }
  }

  /** Over the life of a database the hosts stored are localhost and those that were heard of and have not
      gone since. */
  lemma {:induction false} KnownIsHistory(local: Ip, ops: seq<Op>, n: nat, ip: Ip)
    requires n <= |ops| && ExecAll(NewDb(local), ops[..n]).Done?
    ensures Known(ExecAll(NewDb(local), ops[..n]).db, ip) <==> KnownNow(ops, n, local, ip)
  {
    if n == 0 {
    } else {
      PrefixStep(local, ops, n - 1);
      KnownIsHistory(local, ops, n - 1, ip);
      ExecKnown(ExecAll(NewDb(local), ops[..n - 1]).db, ops[n - 1], ip);
      KnownNowNext(ops, n - 1, local, ip);
    }
  }

  lemma {:induction false} AddMissingNothing(db: Db, ip: Ip, keys: seq<Resource>)
    requires Inv(db) && FindIp(db.hosts, ip) < |db.hosts| && forall k | k in keys :: Has(db, k, ip)
    ensures AddMissing(db, ip, keys) == db
    decreases |keys|
  {
    if keys == [] {
    } else {
      assert keys[0] in keys;
      HostHasIsHas(db, FindIp(db.hosts, ip), keys[0]);
      AddMissingNothing(db, ip, keys[1..]);
    }
  }

  /** A repeated beacon changes nothing at all. */
  lemma RepeatedBeacon(db: Db, ip: Ip, keys: seq<Resource>)
    requires Inv(db)
    ensures UpdateHost(UpdateHost(db, ip, keys), ip, keys) == UpdateHost(db, ip, keys)
  {
    var db' := UpdateHost(db, ip, keys);
    ExecKeeps(db, Beacon(ip, keys));
    ExecKnown(db, Beacon(ip, keys), ip);
    forall k | k in keys ensures Has(db', k, ip) { ExecHas(db, Beacon(ip, keys), k, ip); }
    AddMissingNothing(db', ip, keys);
  }

  // ----- Which resources are stored and revoked -----

  predicate Stored(db: Db, key: Resource) { FindResource(db.resources, key) < |db.resources| }

  predicate Names(op: Op, key: Resource) { (op.Add? && op.key == key) || (op.Beacon? && key in op.keys) }

  lemma WithResourceStored(db: Db, key: Resource, k: Resource)
    ensures Stored(WithResource(db, key), k) <==> Stored(db, k) || k == key
    ensures Revoked(WithResource(db, key), k) <==> Revoked(db, k)
  {
    if !Stored(db, key) {
      var e := ResourceEntry(key, false, []);
      FindAppended(db.resources, e, k);
      assert (db.resources + [e])[|db.resources|] == e;
    }
  }

  lemma AddFileStored(db: Db, key: Resource, ip: Ip, k: Resource)
    ensures Stored(AddFile(db, key, ip), k) <==> Stored(db, k) || k == key
    ensures Revoked(AddFile(db, key, ip), k) <==> Revoked(db, k)
  {
    var db0 := WithResource(db, key);
    WithResourceStored(db, key, k);
    var db1 := WithHost(db0, ip);
    var r, h := FindResource(db1.resources, key), FindIp(db1.hosts, ip);
    SameKeysFind(db1.resources, Link(db1, r, h).resources);
  }

  lemma {:induction false} AddMissingStored(db: Db, ip: Ip, keys: seq<Resource>, k: Resource)
    ensures Stored(AddMissing(db, ip, keys), k) <==> Stored(db, k) || k in keys
    ensures Revoked(AddMissing(db, ip, keys), k) <==> Revoked(db, k)
    decreases |keys|
  {
    if keys == [] {
    } else {
      var h, key := FindIp(db.hosts, ip), keys[0];
      AddFileStored(db, key, ip, k);
      if h < |db.hosts| && HostHas(db, h, key) { assert Stored(db, key); }
      AddMissingStored(AddOne(db, ip, key), ip, keys[1..], k);
    }
  }

  lemma SameStored(db: Db, db': Db, k: Resource)
    requires |db'.resources| == |db.resources|
    requires forall r: nat | r < |db.resources| ::
               db'.resources[r].key == db.resources[r].key && db'.resources[r].invalidated == db.resources[r].invalidated
    ensures Stored(db', k) <==> Stored(db, k)
    ensures Revoked(db', k) <==> Revoked(db, k)
  {
    SameKeysFind(db.resources, db'.resources);
  }

  lemma RevokeStored(db: Db, key: Resource, k: Resource)
    requires Revoke(db, key).Done?
    ensures Stored(Revoke(db, key).db, k) <==> Stored(db, k)
    ensures Revoked(Revoke(db, key).db, k) <==> Revoked(db, k) || (k == key && Stored(db, k))
  {
    if Stored(db, key) { SameKeysFind(db.resources, Revoke(db, key).db.resources); }
  }

  /** What is stored for the first time is not revoked. */
  lemma ExecStored(db: Db, op: Op, k: Resource)
    requires Inv(db) && Exec(db, op).Done?
    ensures Stored(Exec(db, op).db, k) <==> Stored(db, k) || Names(op, k)
    ensures Revoked(Exec(db, op).db, k) <==> Revoked(db, k) || (op == Revocation(k) && Stored(db, k))
  {
    match op
    case Add(key, ip) => AddFileStored(db, key, ip, k);
    case Remove(key, ip) => SameStored(db, RemoveFile(db, key, ip).db, k);
    case Beacon(ip, keys) => AddMissingStored(WithHost(db, ip), ip, keys, k);
    case Revocation(key) => RevokeStored(db, key, k);
    case Gone(ip) =>
      if 0 < FindIp(db.hosts, ip) < |db.hosts| { RemoveHostEffect(db, ip); }
      SameStored(db, RemoveHost(db, ip), k);
  }

  ghost predicate NamedBy(ops: seq<Op>, n: nat, key: Resource) {
    exists i: nat :: i < n <= |ops| && Names(ops[i], key)
  }

  /** Some operation before `n` revokes the resource after an earlier one has named it. */
  ghost predicate RevokedBefore(ops: seq<Op>, n: nat, key: Resource) {
    exists j: nat :: j < n <= |ops| && ops[j] == Revocation(key) && NamedBy(ops, j, key)
  }

  lemma NamedByNext(ops: seq<Op>, n: nat, key: Resource)
    requires n < |ops|
    ensures NamedBy(ops, n + 1, key) <==> NamedBy(ops, n, key) || Names(ops[n], key)
    ensures RevokedBefore(ops, n + 1, key) <==>
              RevokedBefore(ops, n, key) || (ops[n] == Revocation(key) && NamedBy(ops, n, key))
  {
  }

  /** Over the life of a database a resource is stored exactly if it was named, and revoked exactly if it
      was revoked after it had been named. */
  lemma {:induction false} RevokedIsHistory(local: Ip, ops: seq<Op>, n: nat, key: Resource)
    requires n <= |ops| && ExecAll(NewDb(local), ops[..n]).Done?
    ensures Stored(ExecAll(NewDb(local), ops[..n]).db, key) <==> NamedBy(ops, n, key)
    ensures Revoked(ExecAll(NewDb(local), ops[..n]).db, key) <==> RevokedBefore(ops, n, key)
  {
    if n == 0 {
    } else {
      PrefixStep(local, ops, n - 1);
      RevokedIsHistory(local, ops, n - 1, key);
      ExecStored(ExecAll(NewDb(local), ops[..n - 1]).db, ops[n - 1], key);
      NamedByNext(ops, n - 1, key);
    }
  }

  /** In a run that never revokes the resource after naming it, removing it is defined and answers whether
      the host has it. */
  lemma RemoveAnswersRight(local: Ip, ops: seq<Op>, key: Resource, ip: Ip)
    requires ExecAll(NewDb(local), ops).Done? && !RevokedBefore(ops, |ops|, key)
    ensures var out := RemoveFile(ExecAll(NewDb(local), ops).db, key, ip);
            out.Done? && (out.result <==> Current(ops, local, key, ip))
  {
    assert ops[..|ops|] == ops;
    RevokedIsHistory(local, ops, |ops|, key);
    NewDbInv(local);
    RunRefines(NewDb(local), ops);
    RemoveResultUnrevoked(ExecAll(NewDb(local), ops).db, key, ip);
    PossessionIsHistory(local, ops, key, ip);
  }

  /** In such a run the hosts to download from are stored, and are those that have announced the resource and
      not withdrawn it since. */
  lemma HoldersAreAnnouncers(local: Ip, ops: seq<Op>, key: Resource, ip: Ip)
    requires ExecAll(NewDb(local), ops).Done? && NamedBy(ops, |ops|, key) && !RevokedBefore(ops, |ops|, key)
    ensures var db := ExecAll(NewDb(local), ops).db;
            && Stored(db, key)
            && var ptrs := db.resources[FindResource(db.resources, key)].hosts;
               && (forall p | p in ptrs :: Live(db, p))
               && (Current(ops, local, key, ip) <==>
                     exists p :: p in ptrs && Live(db, p) && db.hosts[Lock(db.hosts, p)].ip == ip)
  {
    assert ops[..|ops|] == ops;
    RevokedIsHistory(local, ops, |ops|, key);
    NewDbInv(local);
    RunRefines(NewDb(local), ops);
    PossessionIsHistory(local, ops, key, ip);
    HoldersAgree(ExecAll(NewDb(local), ops).db, key, ip);
  }

  // ----- How often a resource lists a host -----

  /** How often the list of the resource has the pointer of the stored host with that address. */
  ghost function ListCount(db: Db, key: Resource, ip: Ip): nat { multiset(ListOf(db, key))[PtrOf(db, ip)] }

  lemma SameListCount(db: Db, db': Db, key: Resource, ip: Ip)
    requires SameList(db, db', key)
    ensures ListCount(db', key, ip) == ListCount(db, key, ip)
  {
    assert forall p: HostPtr :: p in ListOf(db, key) <==> p in multiset(ListOf(db, key));
  }

  lemma AddFileCount(db: Db, key: Resource, ip: Ip, k: Resource, i: Ip)
    requires Inv(db)
    ensures ListCount(AddFile(db, key, ip), k, i) == ListCount(db, k, i) + if (k, i) == (key, ip) then 1 else 0
  {
    var db0 := WithResource(db, key);
    var db1 := WithHost(db0, ip);
    var r, h := FindResource(db1.resources, key), FindIp(db1.hosts, ip);
    WithResourceKeeps(db, key);
    WithResourceSame(db, key, k);
    SameListCount(db, db0, k, i);
    WithHostKeeps(db0, ip);
    WithHostSame(db0, ip, k);
    SameListCount(db0, db1, k, i);
    LinkList(db1, r, h, k);
    PtrIs(db1, h, i);
  }

  lemma {:induction false} AddMissingCount(db: Db, ip: Ip, keys: seq<Resource>, k: Resource, i: Ip)
    requires Inv(db)
    ensures ListCount(AddMissing(db, ip, keys), k, i) ==
              ListCount(db, k, i) + if i == ip && k in keys && !Has(db, k, ip) then 1 else 0
    decreases |keys|
  {
    if keys == [] {
    } else {
      var h, key := FindIp(db.hosts, ip), keys[0];
      AddFileKeeps(db, key, ip);
      AddFileCount(db, key, ip, k, i);
      AddFileHas(db, key, ip, k, ip);
      if h < |db.hosts| { HostHasIsHas(db, h, key); }
      AddMissingCount(AddOne(db, ip, key), ip, keys[1..], k, i);
    }
  }

  lemma UnlinkCount(db: Db, r: nat, h: nat, k: Resource, i: Ip)
    requires Inv(db) && r < |db.resources| && h < |db.hosts|
    ensures ListCount(Unlink(db, r, h), k, i) ==
              if (k, i) == (db.resources[r].key, db.hosts[h].ip) then 0 else ListCount(db, k, i)
  {
    UnlinkList(db, r, h, k);
    PtrIs(db, h, i);
  }

  lemma CountIsLists(db: Db, key: Resource, ip: Ip)
    requires Inv(db)
    ensures ListCount(db, key, ip) > 0 <==> Lists(db, key, ip)
  {
    ListsIn(db, key, ip);
    assert forall p: HostPtr :: p in ListOf(db, key) <==> p in multiset(ListOf(db, key));
  }

  lemma RemoveHostCount(db: Db, ip: Ip, k: Resource, i: Ip)
    requires Inv(db) && i != ip
    ensures ListCount(RemoveHost(db, ip), k, i) == ListCount(db, k, i)
  {
    var h := FindIp(db.hosts, ip);
    if 0 < h < |db.hosts| {
      RemoveHostPtrs(db, ip);
      RemoveHostList(db, ip, k);
      PtrIs(db, h, i);
    }
  }

  /** Adding lists the host once more, a beacon only if the host does not have the resource, removing and
      disappearing take it out altogether, and nothing else changes the count. */
  lemma ExecCount(db: Db, op: Op, k: Resource, i: Ip)
    requires Inv(db) && Exec(db, op).Done?
    ensures ListCount(Exec(db, op).db, k, i) ==
              if Delists(op, db.hosts[0].ip, k, i) then 0
              else ListCount(db, k, i) + if Announces(op, k, i) && (op.Add? || !Has(db, k, i)) then 1 else 0
  {
    ExecKeeps(db, op);
    if Delists(op, db.hosts[0].ip, k, i) {
      ExecLists(db, op, k, i);
      CountIsLists(Exec(db, op).db, k, i);
    } else {
      match op
      case Add(key, ip) => AddFileCount(db, key, ip, k, i);
      case Remove(key, ip) =>
        if RemoveFile(db, key, ip).result {
          var r := FindResource(db.resources, key);
          UnlinkCount(db, r, FindHolder(db.hosts, db.resources[r].hosts, ip).host, k, i);
        }
      case Beacon(ip, keys) =>
        WithHostKeeps(db, ip);
        WithHostSame(db, ip, k);
        SameListCount(db, WithHost(db, ip), k, i);
        WithHostHas(db, ip, k, ip);
        AddMissingCount(WithHost(db, ip), ip, keys, k, i);
      case Revocation(key) =>
        RevokeSame(db, key, k);
        SameListCount(db, Revoke(db, key).db, k, i);
      case Gone(ip) => if i != ip { RemoveHostCount(db, ip, k, i); }
    }
  }

  /** What a beacon does to the lists of both sides: one more entry for what the host did not have, and not
      one more for what it had. */
  lemma BeaconCounts(db: Db, ip: Ip, keys: seq<Resource>, k: Resource, i: Ip)
    requires Inv(db)
    ensures var db', more := UpdateHost(db, ip, keys), if i == ip && k in keys && !Has(db, k, ip) then 1 else 0;
            && multiset(KeysOf(db', i))[k] == multiset(KeysOf(db, i))[k] + more
            && ListCount(db', k, i) == ListCount(db, k, i) + more
  {
    ExecKeys(db, Beacon(ip, keys), i);
    ExecCount(db, Beacon(ip, keys), k, i);
    HasIsKey(db, k, ip);
    MergedCount(KeysOf(db, i), keys, k);
  }
}
