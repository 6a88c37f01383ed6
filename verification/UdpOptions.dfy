/**
 The options that may follow a UDP announce (BEP 41): the URL data of the request, cut
 into chunks of at most 255 bytes.
 */
module UdpOptions {
  import opened ByteStrings
  import opened UdpQuery

  const END_OF_OPTIONS: Byte := '\0'
  const NOP: Byte := '\U{01}'
  const URL_DATA: Byte := '\U{02}'

  datatype Outcome = Parsed(params: Params) | InvalidEscape | MalformedPacket | UnknownOption

  datatype Collected = Data(data: Bytes) | Malformed | Unknown

  /** The URL data in the options from here on, behind what has been collected so far. */
  function Collect(packet: Bytes, data: Bytes): (r: Collected)
    decreases |packet|
  {
    if packet == [] || packet[0] == END_OF_OPTIONS then Data(data)
    else if packet[0] == NOP then Collect(packet[1..], data)
    else if packet[0] != URL_DATA then Unknown
    else if |packet| < 2 || |packet| < 2 + packet[1] as int then Malformed
    else Collect(packet[2 + packet[1] as int..], data + packet[2..2 + packet[1] as int])
  }

  function OfQuery(q: Option<Params>): Outcome {
    match q
    case Some(params) => Parsed(params)
    case None => InvalidEscape
  }

  function Options(packet: Bytes, lower: Lower): (r: Outcome) {
    match Collect(packet, [])
    case Data(data) => OfQuery(Parse(data, lower))
    case Malformed => MalformedPacket
    case Unknown => UnknownOption
  }

  /** The option at position i. */
  lemma CollectAt(packet: Bytes, i: nat, data: Bytes)
    requires i < |packet|
    ensures var o, c := packet[i], Collect(packet[i..], data);
            && (o == END_OF_OPTIONS ==> c == Data(data))
            && (o == NOP ==> c == Collect(packet[i + 1..], data))
            && (o != END_OF_OPTIONS && o != NOP && o != URL_DATA ==> c == Unknown)
            && (o == URL_DATA ==>
                  if i + 1 >= |packet| || i + 2 + packet[i + 1] as int > |packet| then c == Malformed
                  else var n := i + 2 + packet[i + 1] as int; c == Collect(packet[n..], data + packet[i + 2..n]))
  {
    var rest := packet[i..];
    assert rest[1..] == packet[i + 1..];
    if i + 1 < |packet| && i + 2 + packet[i + 1] as int <= |packet| {
      var n := packet[i + 1] as int;
      assert rest[2 + n..] == packet[i + 2 + n..] && rest[2..2 + n] == packet[i + 2..i + 2 + n];
    }
  }

  /** handleOptionalParameters: one pass over the packet, never outside of it. */
  method HandleOptionalParameters(packet: Bytes, lower: Lower) returns (r: Outcome)
    ensures r == Options(packet, lower)
  {
    var q: Option<Params>;
    if |packet| == 0 {
      q := ParseQuery([], lower);
      return OfQuery(q);
    }
    var buf: Bytes := [];
    var i := 0;
    while i < |packet|
      invariant 0 <= i <= |packet|
      invariant Collect(packet[i..], buf) == Collect(packet, [])
    {
      var option := packet[i];
      CollectAt(packet, i, buf);
      if option == END_OF_OPTIONS {
        q := ParseQuery(buf, lower);
        return OfQuery(q);
      } else if option == NOP {
        i := i + 1;
      } else if option == URL_DATA {
        if i + 1 >= |packet| {
          return MalformedPacket;
        }
        var length := packet[i + 1] as int;
        if i + 2 + length > |packet| {
          return MalformedPacket;
        }
        buf := buf + packet[i + 2..i + 2 + length];
        i := i + 2 + length;
      } else {
        return UnknownOption;
      }
    }
    q := ParseQuery(buf, lower);
    r := OfQuery(q);
  }

  // ------------------------------------------------------------ what it reads

  datatype Opt = Nop | UrlData(chunk: Bytes)
  {
    predicate Valid() { UrlData? ==> |chunk| <= 255 }

    function Encode(): Bytes
      requires Valid()
    {
      match this
      case Nop => [NOP]
      case UrlData(chunk) => [URL_DATA, |chunk| as char] + chunk
    }

    function Chunk(): Bytes { if UrlData? then chunk else [] }
  }

  predicate AllValid(opts: seq<Opt>) { forall i :: 0 <= i < |opts| ==> opts[i].Valid() }

  function Encode(opts: seq<Opt>): Bytes
    requires AllValid(opts)
  {
    if opts == [] then [] else opts[0].Encode() + Encode(opts[1..])
  }

  function UrlOf(opts: seq<Opt>): Bytes {
    if opts == [] then [] else opts[0].Chunk() + UrlOf(opts[1..])
  }

  /** Nothing, or an end marker with anything behind it. */
  predicate Ends(tail: Bytes) { tail == [] || tail[0] == END_OF_OPTIONS }

  lemma OptionStep(o: Opt, rest: Bytes, data: Bytes)
    requires o.Valid()
    ensures Collect(o.Encode() + rest, data) == Collect(rest, data + o.Chunk())
  {
    var packet := o.Encode() + rest;
    match o
    case Nop =>
      assert packet[1..] == rest && data + [] == data;
    case UrlData(chunk) =>
      assert packet[1] as int == |chunk|;
      assert packet[2 + |chunk|..] == rest && packet[2..2 + |chunk|] == chunk;
  }

  lemma {:induction false} CollectsAll(opts: seq<Opt>, tail: Bytes, data: Bytes)
    requires AllValid(opts) && Ends(tail)
    ensures Collect(Encode(opts) + tail, data) == Data(data + UrlOf(opts))
    decreases opts
  {
    if opts == [] {
      assert Encode(opts) + tail == tail && data + [] == data;
    } else {
      var more, rest := data + opts[0].Chunk(), Encode(opts[1..]) + tail;
      OptionStep(opts[0], rest, data);
      CollectsAll(opts[1..], tail, more);
      ConcatAssociative(opts[0].Encode(), Encode(opts[1..]), tail);
      ConcatAssociative(data, opts[0].Chunk(), UrlOf(opts[1..]));
    }
  }

  /** However the URL data is cut and padded, the packet parses like the data itself. */
  lemma ChunkingIsTransparent(opts: seq<Opt>, tail: Bytes, lower: Lower)
    requires AllValid(opts) && Ends(tail)
    ensures Options(Encode(opts) + tail, lower) == OfQuery(Parse(UrlOf(opts), lower))
  {
    CollectsAll(opts, tail, []);
    assert [] + UrlOf(opts) == UrlOf(opts);
  }
}
