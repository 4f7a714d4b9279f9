/** A segment request on the wire, from DownloadWorker to RequestWorker. */
module SegmentRequests {
  import opened Bytes
  import opened ResourceHeaders
  import opened Segments

  const QUIT_CONN: Byte := 4
  const REQ_SEGMENT: Byte := 8
  const REQUEST_SIZE := 267
  const MAX_RECV_DATA_LENGTH := 300

  function Request(r: Resource, id: nat): (s: seq<Byte>)
    ensures |s| == REQUEST_SIZE <= MAX_RECV_DATA_LENGTH
  {
    [REQ_SEGMENT] + Header(r) + BigEndian(id, 2)
  }

  /** DownloadWorker::serialize_segment_request: the vector grows piece by piece. */
  method SerializeSegmentRequest(r: Resource, id: nat) returns (data: seq<Byte>)
    requires |r.name| <= HEADER_SIZE
    ensures data == Request(r, id)
  {
    data := [REQ_SEGMENT];
    var header := GenerateResourceHeader(r);
    data := data + header[..];
    data := data + BigEndian(id, 2);
  }

  /** The request byte by byte: command 8, the name padded to byte 257, the size, and the id at byte 265. */
  lemma RequestLayout(r: Resource, id: nat)
    ensures var s := Request(r, id);
            && s[0] == 8
            && (forall i: nat | 1 <= i < 257 :: s[i] == if i <= |r.name| then r.name[i - 1] else 0)
            && (forall i: nat | 257 <= i < 265 :: s[i] == r.size / Pow256(264 - i) % 256)
            && s[265] == id / 256 % 256 && s[266] == id % 256
  {
    var s := Request(r, id);
    forall i: nat | 257 <= i < 265 ensures s[i] == r.size / Pow256(264 - i) % 256 {
      OctetAt(r.size, 8, i - 257);
      assert s[i] == Header(r)[i - 1] == BigEndian(r.size, 8)[i - 257];
    }
    forall i: nat | 1 <= i < 257 ensures s[i] == if i <= |r.name| then r.name[i - 1] else 0 {
      assert s[i] == Header(r)[i - 1] == NameField(r.name)[i - 1];
    }
    OctetAt(id, 2, 0);
    OctetAt(id, 2, 1);
    assert Pow256(1) == 256 && Pow256(0) == 1;
    assert s[265] == BigEndian(id, 2)[0] && s[266] == BigEndian(id, 2)[1];
  }

  datatype Command = Segment(name: seq<Byte>, size: nat, id: nat) | Quit(name: seq<Byte>) | Other

  /** What RequestWorker::handle_read reads out of its receive buffer. */
  function ParseRequest(recv: seq<Byte>): Command
    requires |recv| == MAX_RECV_DATA_LENGTH
  {
    var name := CString(recv[1..1 + NAME_LENGTH]);
    if recv[0] == REQ_SEGMENT then Segment(name, FromBigEndian(recv[257..265]), FromBigEndian(recv[265..267]))
    else if recv[0] == QUIT_CONN then Quit(name)
    else Other
  }

  /** The server recovers command, name, size and id, whatever older bytes follow in its buffer. */
  lemma RequestRoundTrip(r: Resource, id: nat, recv: seq<Byte>)
    requires Sendable(r) && id < UINT16_LIMIT
    requires |recv| == MAX_RECV_DATA_LENGTH && Request(r, id) <= recv
    ensures ParseRequest(recv) == Segment(r.name, r.size, id)
  {
    assert recv[1..265] == Request(r, id)[1..265] == Header(r);
    assert recv[265..267] == Request(r, id)[265..267] == BigEndian(id, 2);
    HeaderRoundTripIff(r, []);
    assert Header(r) + [] == Header(r);
    assert recv[1..257] == Header(r)[..NAME_LENGTH];
    assert recv[257..265] == Header(r)[NAME_LENGTH..HEADER_SIZE];
    WordSizes();
    DecodeEncode(id, 2);
  }

  /** A connection is closed for the file it names, whatever else is in the buffer. */
  lemma QuitRoundTrip(r: Resource, recv: seq<Byte>)
    requires Sendable(r) && |recv| == MAX_RECV_DATA_LENGTH && [QUIT_CONN] + Header(r) <= recv
    ensures ParseRequest(recv) == Quit(r.name)
  {
    var p := [QUIT_CONN] + Header(r);
    assert recv[1..257] == p[1..257] == Header(r)[..NAME_LENGTH];
    HeaderRoundTripIff(r, []);
    assert Header(r) + [] == Header(r);
  }

  /** `Undefined`: the program reads an uninitialised pointer or casts a value its target type lacks. */
  datatype Action = SendSegment | CloseFile(name: seq<Byte>) | Drop | Ignore | Undefined

  /** A request handle_read has a defined course for: read_lock can open the file, and the number of
      segments fits the 16-bit cast. */
  predicate Servable(c: Command, names: set<seq<Byte>>) {
    c.Segment? ==> c.name in names && c.size < UINT16_LIMIT * SEGMENT_SIZE
  }

  /** RequestWorker::handle_read. `files` are the files on disk as read_lock opens them. */
  method HandleRead(recv: seq<Byte>, files: map<seq<Byte>, OpenFile>, sendData: array<Byte>) returns (action: Action)
    requires |recv| == MAX_RECV_DATA_LENGTH && sendData.Length == SEGMENT_SIZE
    modifies set name | name in files :: files[name], sendData
    ensures var c := ParseRequest(recv);
            && (action == Ignore <==> recv[0] != REQ_SEGMENT && recv[0] != QUIT_CONN)
            && (c.Other? <==> action == Ignore)
            && (c.Quit? <==> action == CloseFile(if c.Quit? then c.name else []))
            && (action == Undefined <==> !Servable(c, files.Keys))
            && (c.Segment? && action != Undefined ==>
                  var f, lo, len := files[c.name], c.id * SEGMENT_SIZE, RequestedSize(c.size, c.id);
                  && (action == SendSegment || action == Drop)
                  && (action == SendSegment <==> old(!f.failed) && (len == 0 || lo + len <= |f.content|))
                  && (action == SendSegment ==>
                        !f.failed && forall i | 0 <= i < SEGMENT_SIZE :: sendData[i] == if i < len then f.content[lo + i] else 0))
  {
    var command := recv[0];
    var end := FindNul(recv[1..1 + NAME_LENGTH]);
    var name := recv[1..1 + NAME_LENGTH][..end];
    if command == REQ_SEGMENT {
      var size, id := FromBigEndian(recv[257..265]), FromBigEndian(recv[265..267]);
      EncodeDecode(recv[265..267]);
      WordSizes();
      if size >= UINT16_LIMIT * SEGMENT_SIZE || name !in files {
        return Undefined;
      }
      var len := RequestedSegmentSize(size, id);
      var ok := files[name].GetSegment(id, sendData, len);
      action := if ok then SendSegment else Drop;
    } else if command == QUIT_CONN {
      action := CloseFile(name);
    } else {
      action := Ignore;
    }
  }

  /** Client and server together: asked for segment `id` of a file it has, the server sends exactly
      that slice of the padded file, which is what the scheduler's workers receive. */
  method RequestAndServe(r: Resource, id: nat, stale: seq<Byte>, f: OpenFile, sendData: array<Byte>)
    requires ValidName(r.name) && r.size == |f.content| <= MAX_FILE_SIZE && id < SegmentsCount(r.size)
    requires |stale| == MAX_RECV_DATA_LENGTH - REQUEST_SIZE && sendData.Length == SEGMENT_SIZE && !f.failed
    modifies f, sendData
    ensures !f.failed && sendData[..] == Slice(f.content, id)
  {
    var data := SerializeSegmentRequest(r, id);
    CountBounds(r.size);
    var recv := data + stale;
    RequestRoundTrip(r, id, recv);
    var action := HandleRead(recv, map[r.name := f], sendData);
    RequestedSizeIsRest(r.size, id);
    assert action == SendSegment;
    assert sendData[..] == Slice(f.content, id);
  }
}
