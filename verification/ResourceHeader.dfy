/** Resources, and the 264-byte header that names one on the wire (src/Resource.cpp). */
module ResourceHeaders {
  import opened Bytes

  const NAME_LENGTH := 256
  const HEADER_SIZE := 264

  /** Resource::operator== compares exactly these two fields. */
  datatype Resource = Resource(name: seq<Byte>, size: nat)

  /** Names a header can carry: no NUL inside, at most 256 bytes. */
  predicate ValidName(name: seq<Byte>) { |name| <= NAME_LENGTH && 0 !in name }

  predicate Sendable(r: Resource) { ValidName(r.name) && r.size < UINT64_LIMIT }

  function Zeros(n: nat): (z: seq<Byte>)
    ensures |z| == n
  {
    seq(n, _ => 0)
  }

  function NameField(name: seq<Byte>): (f: seq<Byte>)
    ensures |f| == NAME_LENGTH
  {
    if |name| >= NAME_LENGTH then name[..NAME_LENGTH] else name + Zeros(NAME_LENGTH - |name|)
  }

  /** The header: the name, cut and padded to 256 bytes, then the size in network order. */
  function Header(r: Resource): (h: seq<Byte>)
    ensures |h| == HEADER_SIZE
  {
    NameField(r.name) + BigEndian(r.size, 8)
  }

  /** Resource::generate_resource_header. Longer names would be copied past the buffer's end. */
  method GenerateResourceHeader(r: Resource) returns (header: array<Byte>)
    requires |r.name| <= HEADER_SIZE
    ensures fresh(header) && header[..] == Header(r)
  {
    header := new Byte[HEADER_SIZE];
    forall i | 0 <= i < NAME_LENGTH { header[i] := 0; }
    forall i | 0 <= i < |r.name| { header[i] := r.name[i]; }
    var sizeNet := BigEndian(r.size, 8);
    forall i | 0 <= i < 8 { header[NAME_LENGTH + i] := sizeNet[i]; }
    assert header[..NAME_LENGTH] == NameField(r.name);
    assert header[NAME_LENGTH..] == sizeNet;
    assert header[..] == header[..NAME_LENGTH] + header[NAME_LENGTH..];
  }

  /** The bytes before the first NUL. */
  function CString(s: seq<Byte>): (t: seq<Byte>)
    ensures |t| <= |s| && t == s[..|t|] && 0 !in t
    ensures |t| < |s| ==> s[|t|] == 0
  {
    if s == [] || s[0] == 0 then [] else [s[0]] + CString(s[1..])
  }

  /** The prefix before the first NUL is determined by where that NUL is. */
  lemma {:induction false} CStringUnique(s: seq<Byte>, end: nat)
    requires end <= |s| && 0 !in s[..end] && (end < |s| ==> s[end] == 0)
    ensures CString(s) == s[..end]
  {
    if end == 0 {
    } else {
      assert s[..end] == [s[0]] + s[1..][..end - 1];
      CStringUnique(s[1..], end - 1);
    }
  }

  /** std::find for the terminator: its index in `s`, or the length of `s`. */
  method FindNul(s: seq<Byte>) returns (end: nat)
    ensures end <= |s| && s[..end] == CString(s)
  {
    end := 0;
    while end < |s| && s[end] != 0
      invariant end <= |s|
      invariant 0 !in s[..end]
    {
      assert s[..end + 1] == s[..end] + [s[end]];
      end := end + 1;
    }
    CStringUnique(s, end);
  }

  /** The constructor of Resource from a header; a short one gives the empty resource. */
  function ParseHeader(h: seq<Byte>): (r: Resource) {
    if |h| >= HEADER_SIZE then Resource(CString(h[..NAME_LENGTH]), FromBigEndian(h[NAME_LENGTH..HEADER_SIZE]))
    else Resource([], 0)
  }

  /** Whatever arrives is parsed to a resource that can be sent on. */
  lemma ParsedIsSendable(h: seq<Byte>)
    ensures Sendable(ParseHeader(h))
  {
    if |h| >= HEADER_SIZE {
      EncodeDecode(h[NAME_LENGTH..HEADER_SIZE]);
      WordSizes();
    }
  }

  method ParseResourceHeader(h: seq<Byte>) returns (r: Resource)
    ensures r == ParseHeader(h)
    ensures Sendable(r)
  {
    ParsedIsSendable(h);
    var name: seq<Byte>, size := [], 0;
    if |h| >= HEADER_SIZE {
      var end := FindNul(h[..NAME_LENGTH]);
      name := h[..NAME_LENGTH][..end];
      size := FromBigEndian(h[NAME_LENGTH..HEADER_SIZE]);
    }
    r := Resource(name, size);
  }

  /** The name as it fits into the header. */
  function CutName(name: seq<Byte>): seq<Byte> { if |name| >= NAME_LENGTH then name[..NAME_LENGTH] else name }

  lemma {:induction false} CStringPadded(s: seq<Byte>, n: nat)
    ensures CString(s + Zeros(n)) == CString(s)
  {
    if s == [] {
    } else {
      assert (s + Zeros(n))[1..] == s[1..] + Zeros(n);
      CStringPadded(s[1..], n);
    }
  }

  /** What is read back from any header, whatever follows it: the size, and the name up to its first NUL
      or the end of its field. */
  lemma HeaderReads(r: Resource, rest: seq<Byte>)
    requires r.size < UINT64_LIMIT
    ensures ParseHeader(Header(r) + rest) == Resource(CString(CutName(r.name)), r.size)
  {
    var h := Header(r) + rest;
    assert h[..NAME_LENGTH] == NameField(r.name);
    assert h[NAME_LENGTH..HEADER_SIZE] == BigEndian(r.size, 8);
    WordSizes();
    DecodeEncode(r.size, 8);
    if |r.name| < NAME_LENGTH { CStringPadded(r.name, NAME_LENGTH - |r.name|); }
  }

  /** A header, alone or followed by more bytes, is read back as the resource it was made from,
      exactly when the name fits and has no NUL in it. */
  lemma HeaderRoundTripIff(r: Resource, rest: seq<Byte>)
    requires r.size < UINT64_LIMIT
    ensures ParseHeader(Header(r) + rest) == r <==> ValidName(r.name)
  {
    HeaderReads(r, rest);
    if ValidName(r.name) {
      assert CutName(r.name) == r.name;
      CStringUnique(r.name, |r.name|);
    }
  }

  /** A header that breaks off names the empty resource, so only that one survives. */
  lemma CutHeaderIff(r: Resource, n: nat)
    requires r.size < UINT64_LIMIT && n < HEADER_SIZE
    ensures ParseHeader(Header(r)[..n]) == r <==> r == Resource([], 0)
  {
  }

  /** Two resources that can be sent have the same header exactly when they are equal. */
  lemma HeaderInjective(a: Resource, b: Resource)
    requires Sendable(a) && Sendable(b)
    ensures Header(a) == Header(b) <==> a == b
  {
    HeaderRoundTripIff(a, []);
    HeaderRoundTripIff(b, []);
  }
}
