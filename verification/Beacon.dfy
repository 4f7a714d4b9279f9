/** Announcing resources by UDP: how a beacon is cut into packets (src/UdpClient.cpp) and what the
    receiver makes of them (src/UdpServer.cpp). */
module Beacons {
  import opened Bytes
  import opened ResourceHeaders
  import opened Database
  import opened DatabaseInvariants
  import opened DatabaseTheorems
  import opened ResourceDatabases

  const REVOKE: Byte := 16
  const FILE_LIST: Byte := 32
  const BEACON_MAX_COUNT := 3
  const BUFFER_SIZE := 1 + 8 + BEACON_MAX_COUNT * HEADER_SIZE

  function Reverse<T>(s: seq<T>): (r: seq<T>)
    ensures |r| == |s|
  {
    if s == [] then [] else [s[|s| - 1]] + Reverse(s[..|s| - 1])
  }

  function Flatten<T>(ss: seq<seq<T>>): seq<T> {
    if ss == [] then [] else ss[0] + Flatten(ss[1..])
  }

  function ChunkLength(n: nat): nat { if n >= BEACON_MAX_COUNT then BEACON_MAX_COUNT else n }

  /** The lists of the packets: at most three entries each, taken from the back. */
  function Chunks<T>(s: seq<T>): (cs: seq<seq<T>>)
    decreases |s|
  {
    if s == [] then []
    else
      var rest := |s| - ChunkLength(|s|);
      [Reverse(s[rest..])] + Chunks(s[..rest])
  }

  function Packet(headers: seq<seq<Byte>>): seq<Byte> {
    [FILE_LIST] + BigEndian(|headers|, 8) + Flatten(headers)
  }

  function Packets(chunks: seq<seq<seq<Byte>>>): (ps: seq<seq<Byte>>)
    ensures |ps| == |chunks|
    ensures forall i: nat | i < |ps| :: ps[i] == Packet(chunks[i])
  {
    if chunks == [] then [] else [Packet(chunks[0])] + Packets(chunks[1..])
  }

  // ----- Sending -----

  lemma FirstPacket(files: seq<seq<Byte>>, packet: seq<Byte>, rest: seq<seq<Byte>>)
    requires files != [] && rest == files[..|files| - ChunkLength(|files|)]
    requires packet == [FILE_LIST] + BigEndian(ChunkLength(|files|), 8)
                       + Flatten(Reverse(files[|files| - ChunkLength(|files|)..]))
    ensures Packets(Chunks(files)) == [packet] + Packets(Chunks(rest))
  {
    var chunk := Reverse(files[|files| - ChunkLength(|files|)..]);
    assert Chunks(files) == [chunk] + Chunks(rest);
    assert packet == Packet(chunk);
  }

  /** The inner loop: `count` headers move from the back of the list to the packet. */
  method InsertResources(packet: seq<Byte>, files: seq<seq<Byte>>, count: nat)
    returns (packet': seq<Byte>, files': seq<seq<Byte>>)
    requires count <= |files|
    ensures files' == files[..|files| - count]
    ensures packet' == packet + Flatten(Reverse(files[|files| - count..]))
  {
    packet', files' := packet, files;
    var i: nat := count;
    ghost var rest := |files| - count;
    while i > 0
      invariant rest + i == |files'| && files' == files[..rest + i]
      invariant packet' + Flatten(Reverse(files[rest..rest + i])) == packet + Flatten(Reverse(files[rest..]))
    {
      var res := files'[|files'| - 1];
      assert files[rest..rest + i][..i - 1] == files[rest..rest + i - 1];
      files' := files'[..|files'| - 1];
      packet' := packet' + res;
      i := i - 1;
    }
  }

  lemma Appended<T>(s: seq<T>, x: T, rest: seq<T>)
    ensures s + [x] + rest == s + ([x] + rest)
  {
  }

  /** The packing loop of fire_beacon. */
  method FireBeacon(headers: seq<seq<Byte>>) returns (sent: seq<seq<Byte>>)
    ensures sent == Packets(Chunks(headers))
  {
    var files := headers;
    sent := [];
    var again := true;
    while again
      invariant !again ==> files == []
      invariant sent + Packets(Chunks(files)) == Packets(Chunks(headers))
      decreases |files| + if again then 1 else 0
    {
      var i := if |files| >= BEACON_MAX_COUNT then BEACON_MAX_COUNT else |files|;
      if i > 0 {
        ghost var before := files;
        var packet: seq<Byte> := [FILE_LIST] + BigEndian(i, 8);
        packet, files := InsertResources(packet, files, i);
        FirstPacket(before, packet, files);
        Appended(sent, packet, Packets(Chunks(files)));
        sent := sent + [packet];
      }
      again := files != [];
    }
  }

  lemma {:induction false} ReverseSplit<T>(a: seq<T>, b: seq<T>)
    ensures Reverse(a + b) == Reverse(b) + Reverse(a)
  {
    if b == [] {
      assert a + b == a;
    } else {
      var n := |b| - 1;
      var s := a + b;
      ReverseSplit(a, b[..n]);
      assert s[..|s| - 1] == a + b[..n] && s[|s| - 1] == b[n];
      assert Reverse(s) == [b[n]] + Reverse(a + b[..n]);
      assert Reverse(b) == [b[n]] + Reverse(b[..n]);
    }
  }

  lemma {:induction false} ChunksReverse<T>(s: seq<T>)
    ensures Flatten(Chunks(s)) == Reverse(s)
    decreases |s|
  {
    if s == [] {
    } else {
      var rest := |s| - ChunkLength(|s|);
      var a, b := s[..rest], s[rest..];
      ChunksReverse(a);
      ReverseSplit(a, b);
      assert s == a + b;
      assert Chunks(s) == [Reverse(b)] + Chunks(a);
    }
  }

  lemma {:induction false} ChunkSizes<T>(s: seq<T>)
    ensures |Chunks(s)| == (|s| + BEACON_MAX_COUNT - 1) / BEACON_MAX_COUNT
    ensures forall i: nat | i < |Chunks(s)| :: 0 < |Chunks(s)[i]| <= BEACON_MAX_COUNT
    ensures forall i: nat | i < |Chunks(s)| - 1 :: |Chunks(s)[i]| == BEACON_MAX_COUNT
    decreases |s|
  {
    if s == [] {
    } else {
      var rest := |s| - ChunkLength(|s|);
      var c, cs := Reverse(s[rest..]), Chunks(s[..rest]);
      ChunkSizes(s[..rest]);
      assert Chunks(s) == [c] + cs && |c| == ChunkLength(|s|);
      assert cs != [] ==> |c| == BEACON_MAX_COUNT;
    }
  }

  /** Taken in order, the packets carry the announced list backwards, complete and without repetition. */
  lemma ChunksInOrder<T>(s: seq<T>)
    ensures Flatten(Chunks(s)) == Reverse(s)
    ensures |Chunks(s)| == (|s| + BEACON_MAX_COUNT - 1) / BEACON_MAX_COUNT
    ensures forall c | c in Chunks(s) :: 0 < |c| <= BEACON_MAX_COUNT
    ensures forall i: nat | i < |Chunks(s)| - 1 :: |Chunks(s)[i]| == BEACON_MAX_COUNT
  {
    ChunksReverse(s);
    ChunkSizes(s);
  }

  lemma {:induction false} InReverse<T>(s: seq<T>, x: T)
    ensures x in Reverse(s) <==> x in s
  {
    if s == [] {
    } else {
      InReverse(s[..|s| - 1], x);
      assert s == s[..|s| - 1] + [s[|s| - 1]];
    }
  }

  lemma {:induction false} InFlatten<T>(ss: seq<seq<T>>, x: T)
    ensures x in Flatten(ss) <==> exists i: nat :: i < |ss| && x in ss[i]
  {
    if ss == [] {
    } else {
      InFlatten(ss[1..], x);
      if i: nat :| i < |ss| && x in ss[i] {
        if i > 0 { assert ss[1..][i - 1] == ss[i]; }
      }
    }
  }

  lemma {:induction false} ReverseOfImage<A, B>(f: A -> B, s: seq<A>)
    ensures Reverse(Image(f, s)) == Image(f, Reverse(s))
  {
    if s == [] {
    } else {
      var n := |s| - 1;
      ReverseOfImage(f, s[..n]);
      assert Image(f, s)[..n] == Image(f, s[..n]);
    }
  }

  lemma {:induction false} ChunksOfImage<A, B>(f: A -> B, s: seq<A>)
    ensures |Chunks(Image(f, s))| == |Chunks(s)|
    ensures forall i: nat | i < |Chunks(s)| :: Chunks(Image(f, s))[i] == Image(f, Chunks(s)[i])
    decreases |s|
  {
    if s == [] {
    } else {
      var rest := |s| - ChunkLength(|s|);
      var t := Image(f, s);
      ChunksOfImage(f, s[..rest]);
      ReverseOfImage(f, s[rest..]);
      assert t[..rest] == Image(f, s[..rest]);
      assert t[rest..] == Image(f, s[rest..]);
      assert Chunks(s) == [Reverse(s[rest..])] + Chunks(s[..rest]);
      assert Chunks(t) == [Image(f, Reverse(s[rest..]))] + Chunks(Image(f, s[..rest]));
    }
  }

  /** Cutting the headers is cutting the resources. */
  lemma ChunksOfHeaders(keys: seq<Resource>)
    ensures |Chunks(Headers(keys))| == |Chunks(keys)|
    ensures forall i: nat | i < |Chunks(keys)| :: Chunks(Headers(keys))[i] == Headers(Chunks(keys)[i])
  {
    ChunksOfImage(Header, keys);
  }

  // ----- Receiving -----

  /** The receive buffer as handle_receive finds it. */
  type Datagram = buf: seq<Byte> | |buf| == BUFFER_SIZE witness Zeros(BUFFER_SIZE)

  function FileCount(buf: Datagram): nat { FromBigEndian(buf[1..9]) }

  function HeaderAt(buf: Datagram, i: nat): seq<Byte>
    requires i < BEACON_MAX_COUNT
  {
    buf[9 + i * HEADER_SIZE..9 + (i + 1) * HEADER_SIZE]
  }

  /** The resources a FILE_LIST packet names. */
  function FileList(buf: Datagram): (keys: seq<Resource>)
    requires FileCount(buf) <= BEACON_MAX_COUNT
    ensures |keys| == FileCount(buf)
  {
    seq(FileCount(buf), i requires 0 <= i < FileCount(buf) => ParseHeader(HeaderAt(buf, i)))
  }

  /** The cursor loop of handle_receive. Nothing checks the count: with more than three files the
      cursor leaves the buffer. */
  method ParseFileList(buf: Datagram) returns (keys: seq<Resource>, overrun: bool)
    ensures overrun <==> FileCount(buf) > BEACON_MAX_COUNT
    ensures !overrun ==> keys == FileList(buf)
  {
    var cursor := 1;
    var count := FromBigEndian(buf[cursor..cursor + 8]);
    cursor := cursor + 8;
    keys := [];
    for i := 0 to count
      invariant cursor == 9 + i * HEADER_SIZE && i <= BEACON_MAX_COUNT
      invariant |keys| == i
      invariant forall j: nat | j < i :: keys[j] == ParseHeader(HeaderAt(buf, j))
    {
      if cursor + HEADER_SIZE > |buf| {
        return keys, true;
      }
      var res := ParseResourceHeader(buf[cursor..cursor + HEADER_SIZE]);
      cursor := cursor + HEADER_SIZE;
      keys := keys + [res];
    }
    overrun := false;
  }

  /** `Crashed`: a null pointer was followed. `Overrun`: bytes behind the buffer were read. */
  datatype Receipt = Handled(db: Db) | Crashed | Overrun

  /** What a received datagram does to the database of its receiver. */
  function Receive(db: Db, from: Ip, buf: Datagram): Receipt {
    if |db.hosts| > 0 && from == db.hosts[0].ip then Handled(db)
    else if buf[0] == FILE_LIST then
      if FileCount(buf) > BEACON_MAX_COUNT then Overrun else Handled(UpdateHost(db, from, FileList(buf)))
    else if buf[0] == REVOKE then
      match Revoke(db, ParseHeader(buf[1..1 + HEADER_SIZE]))
      case Done(db', _) => Handled(db')
      case NullDereference => Crashed
    else Handled(db)
  }

  /** Udp_Server::handle_receive. */
  method HandleReceive(database: ResourceDatabase, from: Ip, buf: Datagram) returns (crashed: bool, overrun: bool)
    requires database.Valid()
    modifies database
    ensures crashed == Receive(old(database.Value()), from, buf).Crashed?
    ensures overrun == Receive(old(database.Value()), from, buf).Overrun?
    ensures overrun ==> database.Value() == old(database.Value())
    ensures !crashed && !overrun ==>
              database.Valid() && Receive(old(database.Value()), from, buf) == Handled(database.Value())
  {
    crashed, overrun := false, false;
    if database.hosts[0].ip != from {
      if buf[0] == FILE_LIST {
        var keys;
        keys, overrun := ParseFileList(buf);
        if !overrun {
          database.UpdateHost(from, keys);
        }
      } else if buf[0] == REVOKE {
        var res := ParseResourceHeader(buf[1..1 + HEADER_SIZE]);
        crashed := database.RevokeResource(res);
      }
    }
  }

  lemma CountDecodes(n: nat)
    requires n <= BEACON_MAX_COUNT
    ensures FromBigEndian(BigEndian(n, 8)) == n
  {
    WordSizes();
    DecodeEncode(n, 8);
  }

  lemma StartOfPrefix(c: Byte, a: seq<Byte>, b: seq<Byte>, buf: seq<Byte>)
    requires [c] + a + b <= buf
    ensures |buf| >= 1 + |a| && buf[0] == c && buf[1..1 + |a|] == a
  {
    assert buf[..1 + |a|] == [c] + a;
    assert buf[1..1 + |a|] == buf[..1 + |a|][1..];
  }

  lemma CountInPacket(hs: seq<seq<Byte>>, buf: seq<Byte>)
    requires Packet(hs) <= buf
    ensures |buf| >= 9 && buf[0] == FILE_LIST && buf[1..9] == BigEndian(|hs|, 8)
  {
    StartOfPrefix(FILE_LIST, BigEndian(|hs|, 8), Flatten(hs), buf);
  }

  lemma SliceOfPrefix(a: seq<Byte>, b: seq<Byte>, buf: seq<Byte>, lo: nat, hi: nat)
    requires a + b <= buf && lo <= hi <= |b|
    ensures |a| + hi <= |buf| && buf[|a| + lo..|a| + hi] == b[lo..hi]
  {
    assert buf[..|a| + |b|] == a + b;
    assert buf[|a| + lo..|a| + hi] == (a + b)[|a| + lo..|a| + hi];
  }

  /** Headers laid end to end are found again at multiples of their size. */
  lemma {:induction false} FlattenAt(hs: seq<seq<Byte>>, i: nat)
    requires (forall h | h in hs :: |h| == HEADER_SIZE) && i < |hs|
    ensures i * HEADER_SIZE + HEADER_SIZE <= |Flatten(hs)|
    ensures Flatten(hs)[i * HEADER_SIZE..i * HEADER_SIZE + HEADER_SIZE] == hs[i]
  {
    assert hs[0] in hs;
    if i == 0 {
    } else {
      FlattenAt(hs[1..], i - 1);
      var lo := (i - 1) * HEADER_SIZE;
      SliceOfPrefix(hs[0], Flatten(hs[1..]), Flatten(hs), lo, lo + HEADER_SIZE);
    }
  }

  lemma HeaderInPacket(hs: seq<seq<Byte>>, buf: seq<Byte>, i: nat)
    requires i < |hs| && (forall j: nat | j < |hs| :: |hs[j]| == HEADER_SIZE) && Packet(hs) <= buf
    ensures 9 + (i + 1) * HEADER_SIZE <= |buf|
    ensures buf[9 + i * HEADER_SIZE..9 + (i + 1) * HEADER_SIZE] == hs[i]
  {
    FlattenAt(hs, i);
    SliceOfPrefix([FILE_LIST] + BigEndian(|hs|, 8), Flatten(hs), buf, i * HEADER_SIZE, i * HEADER_SIZE + HEADER_SIZE);
  }

  lemma PacketParses(hs: seq<seq<Byte>>, keys: seq<Resource>, buf: Datagram)
    requires |hs| == |keys| <= BEACON_MAX_COUNT && Packet(hs) <= buf
    requires forall i: nat | i < |hs| :: |hs[i]| == HEADER_SIZE && ParseHeader(hs[i]) == keys[i]
    ensures buf[0] == FILE_LIST && FileCount(buf) == |keys| && FileList(buf) == keys
  {
    CountInPacket(hs, buf);
    CountDecodes(|hs|);
    forall i: nat | i < |hs| ensures FileList(buf)[i] == keys[i] { HeaderInPacket(hs, buf, i); }
  }

  lemma HeaderParses(r: Resource)
    requires Sendable(r)
    ensures ParseHeader(Header(r)) == r
  {
    HeaderRoundTripIff(r, []);
    assert Header(r) + [] == Header(r);
  }

  /** A packet of at most three sendable resources fits the receive buffer and is read back as it was,
      whatever an earlier datagram left behind it. */
  lemma PacketRoundTrip(keys: seq<Resource>, buf: Datagram)
    requires |keys| <= BEACON_MAX_COUNT && forall k | k in keys :: Sendable(k)
    requires Packet(Headers(keys)) <= buf
    ensures buf[0] == FILE_LIST && FileCount(buf) == |keys| && FileList(buf) == keys
  {
    var hs := Headers(keys);
    forall i: nat | i < |keys| ensures hs[i] == Header(keys[i]) && ParseHeader(hs[i]) == keys[i] {
      assert keys[i] in keys;
      HeaderParses(keys[i]);
    }
    PacketParses(hs, keys, buf);
  }

  lemma {:induction false} FlattenLength(hs: seq<seq<Byte>>)
    requires forall h | h in hs :: |h| == HEADER_SIZE
    ensures |Flatten(hs)| == |hs| * HEADER_SIZE
  {
    if hs == [] {
    } else {
      assert hs[0] in hs;
      FlattenLength(hs[1..]);
    }
  }

  lemma CountOctets(p: seq<Byte>, n: nat)
    requires n < 256 && |p| >= 9 && p[1..9] == BigEndian(n, 8)
    ensures (forall k: nat | 1 <= k < 8 :: p[k] == 0) && p[8] == n
  {
    ZeroOctets(7);
    forall k: nat | 1 <= k < 9 ensures p[k] == (BigEndian(0, 7) + [n])[k - 1] {
      assert p[k] == p[1..9][k - 1];
    }
  }

  /** A beacon packet byte by byte: command 32, the number of files in eight bytes, and a header every 264. */
  lemma PacketLayout(hs: seq<seq<Byte>>, i: nat)
    requires i < |hs| <= 3 && forall j: nat | j < |hs| :: |hs[j]| == 264
    ensures var p := Packet(hs);
            && |p| == 9 + 264 * |hs| && p[0] == 32
            && (forall k: nat | 1 <= k < 8 :: p[k] == 0) && p[8] == |hs|
            && p[9 + 264 * i..9 + 264 * (i + 1)] == hs[i]
  {
    var p := Packet(hs);
    CountInPacket(hs, p);
    CountOctets(p, |hs|);
    HeaderInPacket(hs, p, i);
    FlattenLength(hs);
  }

  /** Every packet of a beacon fits the receive buffer. */
  lemma PacketsFit(keys: seq<Resource>, i: nat)
    requires i < |Packets(Chunks(Headers(keys)))|
    ensures |Packets(Chunks(Headers(keys)))[i]| <= BUFFER_SIZE
  {
    ChunksOfHeaders(keys);
    ChunksInOrder(keys);
    FlattenLength(Headers(Chunks(keys)[i]));
    assert Chunks(keys)[i] in Chunks(keys);
  }

  // ----- Delivery -----

  /** The receive buffer while packet `p` is handled: the packet, then what was there before. */
  predicate Carries(buf: seq<Byte>, p: seq<Byte>) { |buf| == BUFFER_SIZE && p <= buf }

  /** Datagrams handled one after another, up to the first that is undefined. */
  function ReceiveAll(db: Db, from: Ip, bufs: seq<Datagram>): Receipt
    decreases |bufs|
  {
    if bufs == [] then Handled(db)
    else
      match Receive(db, from, bufs[0])
      case Handled(db1) => ReceiveAll(db1, from, bufs[1..])
      case r => r
  }

  /** `which[i]` is the packet of the beacon of `keys` that arrives as the `i`-th datagram. */
  ghost predicate Delivery(keys: seq<Resource>, which: seq<nat>, bufs: seq<Datagram>) {
    && |which| == |bufs|
    && forall i: nat | i < |bufs| ::
         which[i] < |Chunks(keys)| && Carries(bufs[i], Packet(Headers(Chunks(keys)[which[i]])))
  }

  /** A delivery in which every packet of the beacon arrives at least once. */
  ghost predicate Complete(keys: seq<Resource>, which: seq<nat>, bufs: seq<Datagram>) {
    Delivery(keys, which, bufs) && forall c: nat | c < |Chunks(keys)| :: c in which
  }

  lemma ChunkSendable(keys: seq<Resource>, i: nat)
    requires (forall k | k in keys :: Sendable(k)) && i < |Chunks(keys)|
    ensures |Chunks(keys)[i]| <= BEACON_MAX_COUNT && forall k | k in Chunks(keys)[i] :: Sendable(k) && k in keys
  {
    ChunksInOrder(keys);
    assert Chunks(keys)[i] in Chunks(keys);
    forall k | k in Chunks(keys)[i] ensures Sendable(k) && k in keys {
      InFlatten(Chunks(keys), k);
      InReverse(keys, k);
    }
  }

  predicate NamesChunk(buf: Datagram, chunk: seq<Resource>) {
    FileCount(buf) <= BEACON_MAX_COUNT && FileList(buf) == chunk
  }

  lemma DeliveryParses(keys: seq<Resource>, which: seq<nat>, bufs: seq<Datagram>)
    requires (forall k | k in keys :: Sendable(k)) && Delivery(keys, which, bufs)
    ensures forall i: nat | i < |bufs| ::
              bufs[i][0] == FILE_LIST && NamesChunk(bufs[i], Chunks(keys)[which[i]])
  {
    forall i: nat | i < |bufs|
      ensures bufs[i][0] == FILE_LIST && NamesChunk(bufs[i], Chunks(keys)[which[i]])
    {
      ChunkSendable(keys, which[i]);
      PacketRoundTrip(Chunks(keys)[which[i]], bufs[i]);
    }
  }

  ghost predicate Arrived(keys: seq<Resource>, which: seq<nat>, k: Resource) {
    exists i: nat :: i < |which| && which[i] < |Chunks(keys)| && k in Chunks(keys)[which[i]]
  }

  lemma DeliveryTail(keys: seq<Resource>, which: seq<nat>, bufs: seq<Datagram>)
    requires Delivery(keys, which, bufs) && bufs != []
    ensures Delivery(keys, which[1..], bufs[1..])
  {
    forall i: nat | i < |bufs[1..]|
      ensures which[1..][i] < |Chunks(keys)| && Carries(bufs[1..][i], Packet(Headers(Chunks(keys)[which[1..][i]])))
    {
      assert which[1..][i] == which[i + 1] && bufs[1..][i] == bufs[i + 1];
    }
  }

  lemma ReceiveChunk(db: Db, from: Ip, buf: Datagram, chunk: seq<Resource>)
    requires Inv(db) && from != db.hosts[0].ip
    requires buf[0] == FILE_LIST && NamesChunk(buf, chunk)
    ensures var db' := UpdateHost(db, from, chunk);
            && Receive(db, from, buf) == Handled(db')
            && Inv(db') && db'.hosts[0].ip == db.hosts[0].ip
            && forall k: Resource, ip: Ip :: (k, ip) in Rel(db') <==> (k, ip) in Rel(db) || (ip == from && k in chunk)
  {
    ExecRefines(db, Beacon(from, chunk));
    ExecExtends(db, Beacon(from, chunk));
  }

  lemma ArrivedFirst(keys: seq<Resource>, which: seq<nat>, k: Resource)
    requires which != [] && which[0] < |Chunks(keys)|
    ensures Arrived(keys, which, k) <==> k in Chunks(keys)[which[0]] || Arrived(keys, which[1..], k)
  {
    if i: nat :| i < |which| && which[i] < |Chunks(keys)| && k in Chunks(keys)[which[i]] {
      if i > 0 { assert which[1..][i - 1] == which[i]; }
    }
    if i: nat :| i < |which[1..]| && which[1..][i] < |Chunks(keys)| && k in Chunks(keys)[which[1..][i]] {
      assert which[i + 1] == which[1..][i];
    }
  }

  /** Any packets of a beacon, in any order and with repeats, add for the sender exactly the
      resources they name, and change nothing about anybody else. */
  lemma {:induction false} DeliveryIsUnion(db: Db, from: Ip, keys: seq<Resource>, which: seq<nat>, bufs: seq<Datagram>)
    requires Inv(db) && from != db.hosts[0].ip
    requires (forall k | k in keys :: Sendable(k)) && Delivery(keys, which, bufs)
    ensures ReceiveAll(db, from, bufs).Handled? && Inv(ReceiveAll(db, from, bufs).db)
    ensures forall k: Resource, ip: Ip ::
              (k, ip) in Rel(ReceiveAll(db, from, bufs).db)
              <==> (k, ip) in Rel(db) || (ip == from && Arrived(keys, which, k))
    decreases |bufs|
  {
    DeliveryParses(keys, which, bufs);
    if bufs == [] {
    } else {
      var chunk := Chunks(keys)[which[0]];
      var db1 := UpdateHost(db, from, chunk);
      ReceiveChunk(db, from, bufs[0], chunk);
      DeliveryTail(keys, which, bufs);
      DeliveryIsUnion(db1, from, keys, which[1..], bufs[1..]);
      assert ReceiveAll(db, from, bufs) == ReceiveAll(db1, from, bufs[1..]);
      forall k: Resource { ArrivedFirst(keys, which, k); }
    }
  }

  lemma AllArrived(keys: seq<Resource>, which: seq<nat>, k: Resource)
    requires forall c: nat | c < |Chunks(keys)| :: c in which
    ensures Arrived(keys, which, k) <==> k in keys
  {
    ChunksInOrder(keys);
    InFlatten(Chunks(keys), k);
    InReverse(keys, k);
    if c: nat :| c < |Chunks(keys)| && k in Chunks(keys)[c] {
      assert c in which;
      var i: nat :| i < |which| && which[i] == c;
    }
  }

  /** Two nodes: when every packet of the sender's beacon arrives at least once, the receiver knows of
      everything the sender has, and of nothing else that it did not know before. */
  lemma BeaconSpreads(sender: Db, receiver: Db, which: seq<nat>, bufs: seq<Datagram>)
    requires Inv(sender) && Inv(receiver) && sender.hosts[0].ip != receiver.hosts[0].ip
    requires forall k | k in Advertised(sender) :: Sendable(k)
    requires Complete(Advertised(sender), which, bufs)
    ensures var from := sender.hosts[0].ip;
            && ReceiveAll(receiver, from, bufs).Handled?
            && forall k: Resource, ip: Ip ::
                 (k, ip) in Rel(ReceiveAll(receiver, from, bufs).db)
                 <==> (k, ip) in Rel(receiver) || (ip == from && (k, from) in Rel(sender))
  {
    var keys, from := Advertised(sender), sender.hosts[0].ip;
    DeliveryIsUnion(receiver, from, keys, which, bufs);
    forall k: Resource ensures Arrived(keys, which, k) <==> (k, from) in Rel(sender) {
      AllArrived(keys, which, k);
      AdvertisedIsRel(sender, k);
    }
  }

  /** The receiver's list for the sender becomes the sender's list exactly when the receiver knew of
      nothing else there: a beacon adds, and what the sender has removed since stays. */
  lemma BeaconReplacesIff(sender: Db, receiver: Db, which: seq<nat>, bufs: seq<Datagram>)
    requires Inv(sender) && Inv(receiver) && sender.hosts[0].ip != receiver.hosts[0].ip
    requires forall k | k in Advertised(sender) :: Sendable(k)
    requires Complete(Advertised(sender), which, bufs)
    ensures var from := sender.hosts[0].ip;
            && ReceiveAll(receiver, from, bufs).Handled?
            && ((forall k: Resource ::
                   (k, from) in Rel(ReceiveAll(receiver, from, bufs).db) <==> (k, from) in Rel(sender))
                <==> (forall k: Resource :: (k, from) in Rel(receiver) ==> (k, from) in Rel(sender)))
  {
    BeaconSpreads(sender, receiver, which, bufs);
  }

  lemma InOrderInBuffers(ps: seq<seq<Byte>>) returns (which: seq<nat>, bufs: seq<Datagram>)
    requires forall i: nat | i < |ps| :: |ps[i]| <= BUFFER_SIZE
    ensures |which| == |bufs| == |ps|
    ensures forall i: nat | i < |ps| :: which[i] == i && i in which && Carries(bufs[i], ps[i])
  {
    which := seq(|ps|, i => i);
    bufs := seq(|ps|, i requires 0 <= i < |ps| => ps[i] + Zeros(BUFFER_SIZE - |ps[i]|));
    forall i: nat | i < |ps| ensures which[i] == i && i in which {
      assert which[i] in which;
    }
  }

  /** Every packet of a beacon, once and in order, in a cleared buffer. */
  lemma FullDelivery(keys: seq<Resource>) returns (which: seq<nat>, bufs: seq<Datagram>)
    ensures Complete(keys, which, bufs)
  {
    ChunksOfHeaders(keys);
    var ps := Packets(Chunks(Headers(keys)));
    forall i: nat | i < |ps| ensures |ps[i]| <= BUFFER_SIZE { PacketsFit(keys, i); }
    which, bufs := InOrderInBuffers(ps);
    forall i: nat | i < |bufs|
      ensures which[i] < |Chunks(keys)| && Carries(bufs[i], Packet(Headers(Chunks(keys)[which[i]])))
    {
      assert ps[i] == Packet(Headers(Chunks(keys)[i]));
    }
  }

  /** One complete announcement between two nodes; the receiver forgets nothing. */
  lemma Announce(sender: Db, receiver: Db) returns (which: seq<nat>, bufs: seq<Datagram>)
    requires Inv(sender) && Inv(receiver) && sender.hosts[0].ip != receiver.hosts[0].ip
    requires forall x | x in Rel(sender) && x.1 == sender.hosts[0].ip :: Sendable(x.0)
    ensures Complete(Advertised(sender), which, bufs)
    ensures ReceiveAll(receiver, sender.hosts[0].ip, bufs).Handled?
    ensures Rel(receiver) <= Rel(ReceiveAll(receiver, sender.hosts[0].ip, bufs).db)
  {
    which, bufs := FullDelivery(Advertised(sender));
    forall k | k in Advertised(sender) ensures Sendable(k) { AdvertisedIsRel(sender, k); }
    BeaconSpreads(sender, receiver, which, bufs);
  }

  /** What a node knows after operations that remove no host. */
  lemma KnowsAfter(local: Ip, ops: seq<Op>) returns (db: Db)
    requires forall op | op in ops :: !op.Gone?
    ensures var out := ExecAll(NewDb(local), ops); out.Done? && out.db == db
    ensures Inv(db) && db.hosts[0].ip == local
    ensures forall key: Resource, ip: Ip :: (key, ip) in Rel(db) <==> Current(ops, local, key, ip)
  {
    NewDbInv(local);
    NoRemovalNoDeadPointer(NewDb(local), ops);
    RunRefines(NewDb(local), ops);
    db := ExecAll(NewDb(local), ops).db;
    forall key: Resource, ip: Ip { PossessionIsHistory(local, ops, key, ip); }
  }

  /** A node stores two files and removes one. */
  lemma StoresAndRemoves(from: Ip, gone: Resource, kept: Resource) returns (ops: seq<Op>, db: Db)
    requires gone != kept
    ensures ops == [Add(gone, from), Add(kept, from), Remove(gone, from)]
    ensures ExecAll(NewDb(from), ops).Done? && ExecAll(NewDb(from), ops).db == db
    ensures Inv(db) && db.hosts[0].ip == from
    ensures forall x | x in Rel(db) :: x == (kept, from)
  {
    ops := [Add(gone, from), Add(kept, from), Remove(gone, from)];
    db := KnowsAfter(from, ops);
    assert Withdraws(ops[2], from, gone, from);
  }

  /** Another node has heard of both. */
  lemma HasHeard(from: Ip, local: Ip, keys: seq<Resource>, key: Resource) returns (ops: seq<Op>, db: Db)
    requires key in keys
    ensures ops == [Beacon(from, keys)]
    ensures ExecAll(NewDb(local), ops).Done? && ExecAll(NewDb(local), ops).db == db
    ensures Inv(db) && db.hosts[0].ip == local
    ensures (key, from) in Rel(db)
  {
    ops := [Beacon(from, keys)];
    db := KnowsAfter(local, ops);
    assert Announces(ops[0], key, from) && Undisturbed(ops, 1, local, key, from);
  }

  /** When that node announces what is left, the other goes on listing the removed file for it. */
  lemma RemovedStaysListed(from: Ip, local: Ip, gone: Resource, kept: Resource)
    returns (sent: seq<Op>, heard: seq<Op>, which: seq<nat>, bufs: seq<Datagram>)
    requires from != local && gone != kept && Sendable(kept)
    ensures sent == [Add(gone, from), Add(kept, from), Remove(gone, from)] && heard == [Beacon(from, [gone, kept])]
    ensures ExecAll(NewDb(from), sent).Done? && ExecAll(NewDb(local), heard).Done?
    ensures var sender, receiver := ExecAll(NewDb(from), sent).db, ExecAll(NewDb(local), heard).db;
            && Inv(sender) && Complete(Advertised(sender), which, bufs)
            && (gone, from) !in Rel(sender)
            && ReceiveAll(receiver, from, bufs).Handled?
            && (gone, from) in Rel(ReceiveAll(receiver, from, bufs).db)
  {
    var sender, receiver;
    sent, sender := StoresAndRemoves(from, gone, kept);
    heard, receiver := HasHeard(from, local, [gone, kept], gone);
    which, bufs := Announce(sender, receiver);
  }

  // ----- Revocation -----

  function RevokePacket(r: Resource): (p: seq<Byte>)
    ensures |p| <= BUFFER_SIZE
  {
    [REVOKE] + Header(r)
  }

  /** Udp_Client::revoke_file. */
  method RevokeFile(r: Resource) returns (packet: seq<Byte>)
    requires |r.name| <= HEADER_SIZE
    ensures packet == RevokePacket(r)
  {
    packet := [REVOKE];
    var res := GenerateResourceHeader(r);
    packet := packet + res[..];
  }

  /** A revocation packet is command 16 and the header. */
  lemma RevokeLayout(r: Resource)
    ensures |RevokePacket(r)| == 265 && RevokePacket(r)[0] == 16 && RevokePacket(r)[1..] == Header(r)
  {
  }

  /** A revocation from another node takes the resource from every host the receiver knows, itself included. */
  lemma RevocationSpreads(db: Db, from: Ip, r: Resource, buf: Datagram)
    requires Inv(db) && from != db.hosts[0].ip && Sendable(r) && Carries(buf, RevokePacket(r))
    ensures Receive(db, from, buf) == if Revoke(db, r).Done? then Handled(Revoke(db, r).db) else Crashed
    ensures Receive(db, from, buf).Handled? ==>
              Rel(Receive(db, from, buf).db) == set x | x in Rel(db) && x.0 != r
  {
    assert buf[0] == RevokePacket(r)[0];
    assert buf[1..1 + HEADER_SIZE] == RevokePacket(r)[1..] == Header(r);
    HeaderParses(r);
    if Revoke(db, r).Done? { ExecRefines(db, Revocation(r)); }
  }

  // ----- Any datagrams from anybody -----

  datatype Arrival = Arrival(from: Ip, buf: Datagram)

  function ReceiveStream(db: Db, arrivals: seq<Arrival>): Receipt
    decreases |arrivals|
  {
    if arrivals == [] then Handled(db)
    else
      match Receive(db, arrivals[0].from, arrivals[0].buf)
      case Handled(db1) => ReceiveStream(db1, arrivals[1..])
      case r => r
  }

  /** From another node, with a command the server knows. */
  predicate Heard(a: Arrival, local: Ip) { a.from != local && (a.buf[0] == FILE_LIST || a.buf[0] == REVOKE) }

  predicate TooLong(a: Arrival) { a.buf[0] == FILE_LIST && FileCount(a.buf) > BEACON_MAX_COUNT }

  function HeardOf(arrivals: seq<Arrival>, local: Ip): seq<Arrival> {
    if arrivals == [] then []
    else if Heard(arrivals[0], local) then [arrivals[0]] + HeardOf(arrivals[1..], local)
    else HeardOf(arrivals[1..], local)
  }

  /** The database operation a datagram asks for. */
  function Asked(a: Arrival): Op
    requires !TooLong(a)
  {
    if a.buf[0] == FILE_LIST then Beacon(a.from, FileList(a.buf)) else Revocation(ParseHeader(a.buf[1..1 + HEADER_SIZE]))
  }

  /** The operations asked for, up to the first datagram that announces too many files. */
  function AskedAll(arrivals: seq<Arrival>): seq<Op> {
    if arrivals == [] || TooLong(arrivals[0]) then [] else [Asked(arrivals[0])] + AskedAll(arrivals[1..])
  }

  lemma ReceiveHeard(db: Db, a: Arrival)
    requires Inv(db) && Heard(a, db.hosts[0].ip) && !TooLong(a)
    ensures Receive(db, a.from, a.buf) ==
              if Exec(db, Asked(a)).Done? then Handled(Exec(db, Asked(a)).db) else Crashed
  {
  }

  lemma HeardFirst(db: Db, a: Arrival, rest: seq<Arrival>)
    requires Inv(db) && Heard(a, db.hosts[0].ip) && !TooLong(a)
    ensures var heard := HeardOf(rest, db.hosts[0].ip);
            var all := HeardOf([a] + rest, db.hosts[0].ip);
            && all == [a] + heard && all[1..] == heard
            && AskedAll(all) == [Asked(a)] + AskedAll(heard) && AskedAll(all)[1..] == AskedAll(heard)
            && ((exists i: nat :: i < |all| && TooLong(all[i])) <==> exists i: nat :: i < |heard| && TooLong(heard[i]))
  {
    var heard := HeardOf(rest, db.hosts[0].ip);
    var all := [a] + heard;
    assert ([a] + rest)[1..] == rest && all[1..] == heard;
    if i: nat :| i < |heard| && TooLong(heard[i]) { assert all[i + 1] == heard[i]; }
    if i: nat :| i < |all| && TooLong(all[i]) { assert heard[i - 1] == all[i]; }
  }

  /** A node's own datagrams, and commands it does not know, might as well not have arrived. The others are
      the operations they ask for, up to the first that asks for more than the buffer holds. */
  lemma {:induction false} StreamIsRun(db: Db, arrivals: seq<Arrival>)
    requires Inv(db)
    ensures var heard := HeardOf(arrivals, db.hosts[0].ip);
            && ReceiveStream(db, arrivals) == ReceiveStream(db, heard)
            && ReceiveStream(db, arrivals) ==
                 match ExecAll(db, AskedAll(heard))
                 case NullDereference => Crashed
                 case Done(db', _) => if exists i: nat :: i < |heard| && TooLong(heard[i]) then Overrun else Handled(db')
    decreases |arrivals|
  {
    if arrivals == [] {
    } else {
      var local, a, rest := db.hosts[0].ip, arrivals[0], arrivals[1..];
      var heard := HeardOf(rest, local);
      if !Heard(a, local) {
        assert Receive(db, a.from, a.buf) == Handled(db);
        StreamIsRun(db, rest);
      } else if TooLong(a) {
        var all := [a] + heard;
        assert HeardOf(arrivals, local) == all && TooLong(all[0]);
        assert Receive(db, a.from, a.buf) == Overrun;
      } else {
        ReceiveHeard(db, a);
        HeardFirst(db, a, rest);
        if Exec(db, Asked(a)).Done? {
          ExecKeeps(db, Asked(a));
          ExecExtends(db, Asked(a));
          StreamIsRun(Exec(db, Asked(a)).db, rest);
        }
      }
    }
  }
}
