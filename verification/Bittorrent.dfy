/**
 The values every part of the tracker shares: network addresses (netip.Addr), info
 hashes, peers and requests.
 */
module Bittorrent {
  import opened ByteStrings

  type IPv4Bytes = b: Bytes | |b| == 4 witness "\0\0\0\0"
  type IPv6Bytes = b: Bytes | |b| == 16 witness "\0\0\0\0\0\0\0\0\0\0\0\0\0\0\0\0"

  const ZERO4: IPv4Bytes := "\0\0\0\0"
  const ZERO16: IPv6Bytes := "\0\0\0\0\0\0\0\0\0\0\0\0\0\0\0\0"
  const LOOPBACK6: IPv6Bytes := "\0\0\0\0\0\0\0\0\0\0\0\0\0\0\0\U{01}"
  const BROADCAST4: IPv4Bytes := "\U{FF}\U{FF}\U{FF}\U{FF}"

  /** netip.Addr: the zero value, an IPv4 or an IPv6 address, the latter with a zone. */
  datatype Addr = NoAddr | V4(v4: IPv4Bytes) | V6(v6: IPv6Bytes, zone: Bytes)
  {
    predicate IsValid() { !NoAddr? }

    predicate Is4() { V4? }

    predicate Is6() { V6? }

    /** ::ffff:a.b.c.d */
    predicate Is4In6() { V6? && (forall i :: 0 <= i < 10 ==> v6[i] == '\0') && v6[10] == v6[11] == '\U{FF}' }

    /** The IPv4 address behind an IPv4-mapped IPv6 one; any other address as it is. */
    function Unmap(): (a: Addr)
      ensures !a.Is4In6()
    {
      if Is4In6() then V4(v6[12..]) else this
    }

    function AsSlice(): Bytes {
      match this
      case NoAddr => []
      case V4(b) => b
      case V6(b, _) => b
    }

    function First(): int
      requires IsValid()
    {
      AsSlice()[0] as int
    }

    function Second(): int
      requires IsValid()
    {
      AsSlice()[1] as int
    }

    predicate IsUnspecified() { this == V4(ZERO4) || this == V6(ZERO16, []) }

    predicate IsMulticast() {
      var a := Unmap();
      (a.V4? && a.First() / 16 == 14) || (a.V6? && a.First() == 0xff)
    }

    predicate IsLoopback() {
      var a := Unmap();
      (a.V4? && a.First() == 127) || (a.V6? && a.v6 == LOOPBACK6)
    }

    predicate IsLinkLocalUnicast() {
      var a := Unmap();
      (a.V4? && a.First() == 169 && a.Second() == 254) || (a.V6? && a.First() == 0xfe && a.Second() / 64 == 2)
    }

    predicate IsGlobalUnicast() {
      && IsValid() && Unmap() != V4(ZERO4) && Unmap() != V4(BROADCAST4) && Unmap() != V6(ZERO16, [])
      && !IsLoopback() && !IsMulticast() && !IsLinkLocalUnicast()
    }

    predicate IsPrivate() {
      var a := Unmap();
      || (a.V4? && (a.First() == 10 || (a.First() == 172 && a.Second() / 16 == 1) ||
        (a.First() == 192 && a.Second() == 168)))
      || (a.V6? && a.First() / 2 == 126)
    }
  }

  /** netip.AddrFromSlice */
  function AddrFromSlice(b: Bytes): (a: Addr)
    ensures a.IsValid() <==> |b| == 4 || |b| == 16
    ensures a.IsValid() ==> a.AsSlice() == b
  {
    if |b| == 4 then V4(b) else if |b| == 16 then V6(b, []) else NoAddr
  }

  const INFO_HASH_V1_LEN := 20
  const INFO_HASH_V2_LEN := 32

  /** What NewInfoHash lets through: a V1 (SHA-1) or a V2 (SHA-256) hash. */
  type InfoHash = h: Bytes | |h| == INFO_HASH_V1_LEN || |h| == INFO_HASH_V2_LEN witness "01234567890123456789"

  function TruncateV1(h: InfoHash): (t: InfoHash)
    ensures |t| == INFO_HASH_V1_LEN && t <= h
  {
    if |h| == INFO_HASH_V2_LEN then h[..INFO_HASH_V1_LEN] else h
  }

  type PeerID = b: Bytes | |b| == 20 witness "01234567890123456789"
  type Port = n: nat | n < 0x1_0000

  /** The address of a peer is kept as it came; `Addr` unmaps it. */
  datatype Peer = Peer(id: PeerID, ip: Addr, port: Port)
  {
    function Addr(): Addr { ip.Unmap() }
  }

  datatype Event = NoEvent | Started | Stopped | Completed

  /** An address and whether the client named it itself. */
  datatype RequestAddress = RequestAddress(addr: Addr, provided: bool)

  datatype AnnounceRequest = AnnounceRequest(
    event: Event,
    eventProvided: bool,
    infoHash: InfoHash,
    numWant: nat,
    numWantProvided: bool,
    left: nat,
    downloaded: nat,
    uploaded: nat,
    id: PeerID,
    port: Port,
    addresses: seq<RequestAddress>
  )
  {
    /** One peer for every address. */
    function Peers(): (peers: seq<Peer>)
      ensures |peers| == |addresses|
    {
      seq(|addresses|, i requires 0 <= i < |addresses| => Peer(id, addresses[i].addr, port))
    }

    /** The first address, or the zero address. */
    function GetFirst(): Addr {
      if addresses == [] then NoAddr else addresses[0].addr
    }
  }
}
