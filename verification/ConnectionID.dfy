/**
 Connection IDs of the UDP frontend: eight bytes that carry a salt, the low 16 bits of the time
 they were issued and the first five bytes of a keyed hash over the salt, the whole time and the
 address. To check one, the missing bits of the time are taken from the clock of the moment.
 The keyed hash is any function from what was written to it to a digest.
 */
module ConnectionID {
  import opened ByteStrings
  import opened Bittorrent
  import opened Words
  import Xorshift

  const TTL: int := 120_000_000_000   // two minutes in nanoseconds, compared with seconds
  const CONN_ID_LEN := 8
  const BUFF_LEN := 9
  const HMAC_LEN := 5
  const MAX64: int := 0x7FFF_FFFF_FFFF_FFFF
  const WINDOW := 65536

  /** A 64-bit digest. */
  type Digest = b: Bytes | |b| == 8 witness "........"

  type Mac = Bytes -> Digest

  /** Seconds since the epoch. */
  type Time = t: int | -MAX64 - 1 <= t <= MAX64

  /** The two's complement of a time, as the unsigned number that is written. */
  function Unsigned(t: Time): (n: nat)
    ensures n % WINDOW == t % WINDOW
  {
    if t < 0 then t + MOD64 else t
  }

  /** What a sum or difference of two 64-bit numbers wraps to. */
  function Wrapped(x: int): (r: int)
    ensures -MAX64 - 1 <= x <= MAX64 ==> r == x
  {
    if x > MAX64 then x - MOD64 else if x < -MAX64 - 1 then x + MOD64 else x
  }

  function Tag(mac: Mac, salt: Byte, t: Time, ip: Addr): (b: Bytes)
    ensures |b| == HMAC_LEN
  {
    mac([salt] + BigEndian(Unsigned(t), 8) + ip.AsSlice())[..HMAC_LEN]
  }

  /** The ID issued at a time to an address. */
  function Issued(mac: Mac, salt: Byte, ip: Addr, t: Time): (id: Bytes)
    ensures |id| == CONN_ID_LEN
  {
    [salt] + BigEndian(Unsigned(t), 8)[6..] + Tag(mac, salt, t, ip)
  }

  /** The time an ID is taken to have been issued at. */
  function Restored(id: Bytes, now: Time): Time
    requires |id| >= 3
  {
    now - now % WINDOW + id[1] as int * 256 + id[2] as int
  }

  predicate Accepts(mac: Mac, maxClockSkew: Time, id: Bytes, ip: Addr, now: Time)
    requires |id| >= CONN_ID_LEN
  {
    var ts := Restored(id, now);
    && Tag(mac, id[0], ts, ip) == id[3..CONN_ID_LEN]
    && Wrapped(ts - maxClockSkew) < now < Wrapped(Wrapped(ts + TTL) + maxClockSkew)
  }

  class Generator {
    const mac: Mac
    const maxClockSkew: Time
    const connID: array<Byte>
    const buff: array<Byte>
    var scratch: Bytes
    var s: bv64

    ghost predicate Valid()
      reads this
    {
      connID.Length == CONN_ID_LEN && buff.Length == BUFF_LEN && connID != buff
    }

    constructor (mac: Mac, maxClockSkew: Time)
      ensures Valid() && this.mac == mac && this.maxClockSkew == maxClockSkew
      ensures fresh(connID) && fresh(buff)
    {
      this.mac, this.maxClockSkew := mac, maxClockSkew;
      connID := new Byte[CONN_ID_LEN];
      buff := new Byte[BUFF_LEN];
      scratch := [];
      s := 0;
    }

    /** reset: a new seed for every generated ID, none for a check. */
    method Reset(init: bool, seed: bv64)
      modifies this
      ensures scratch == [] && s == (if init then seed else old(s))
    {
      scratch := [];
      if init {
        s := seed;
      }
    }

    /** PutUint64 behind the salt. */
    method PutStamp(stamp: Bytes)
      requires Valid() && |stamp| == 8
      modifies buff
      ensures buff[0] == old(buff[0]) && buff[1..] == stamp
    {
      for i := 0 to 8
        invariant buff[0] == old(buff[0]) && buff[1..1 + i] == stamp[..i]
      {
        buff[1 + i] := stamp[i];
        assert buff[1..2 + i] == buff[1..1 + i] + [stamp[i]];
      }
    }

    /** Put the salt and the time into the buffer and hash it with the address. */
    method Hash(salt: Byte, t: Time, ip: Addr)
      requires Valid() && scratch == []
      modifies this`scratch, buff
      ensures buff[..] == [salt] + BigEndian(Unsigned(t), 8)
      ensures |scratch| == 8 && scratch[..HMAC_LEN] == Tag(mac, salt, t, ip)
    {
      buff[0] := salt;
      PutStamp(BigEndian(Unsigned(t), 8));
      assert buff[..] == [salt] + BigEndian(Unsigned(t), 8);
      scratch := scratch + mac(buff[..] + ip.AsSlice());
    }

    method PutTag(tag: Bytes)
      requires Valid() && |tag| == HMAC_LEN
      modifies connID
      ensures connID[..3] == old(connID[..3]) && connID[3..] == tag
    {
      for i := 0 to HMAC_LEN
        invariant connID[..3] == old(connID[..3]) && connID[3..3 + i] == tag[..i]
      {
        connID[3 + i] := tag[i];
        assert connID[3..4 + i] == connID[3..3 + i] + [tag[i]];
      }
    }

    /** Generate */
    method Generate(ip: Addr, now: Time, seed: bv64) returns (out: array<Byte>)
      requires Valid()
      modifies this, connID, buff
      ensures Valid() && out == connID && s == Xorshift.XorShift64S(seed).1
      ensures out[..] == Issued(mac, Salt(seed), ip, now)
    {
      Reset(true, seed);
      var salt := Salt(s);
      s := Xorshift.XorShift64S(s).1;
      Hash(salt, now, ip);
      connID[0], connID[1], connID[2] := buff[0], buff[7], buff[8];
      PutTag(scratch[..HMAC_LEN]);
      Assembled(connID[..], buff[..], scratch[..HMAC_LEN], salt, BigEndian(Unsigned(now), 8));
      out := connID;
    }

    /** Validate: the issued ID in connID and the state of the generator stay as they are. */
    method Validate(id: Bytes, ip: Addr, now: Time) returns (ok: bool)
      requires Valid() && |id| >= CONN_ID_LEN
      modifies this, buff
      ensures Valid() && s == old(s) && connID[..] == old(connID[..])
      ensures ok == Accepts(mac, maxClockSkew, id, ip, now)
    {
      Reset(false, 0);
      var ts := Restored(id, now);
      Hash(id[0], ts, ip);
      ok := scratch[..HMAC_LEN] == id[CONN_ID_LEN - HMAC_LEN..CONN_ID_LEN];
      ok := Wrapped(ts - maxClockSkew) < now && ok;
      ok := now < Wrapped(Wrapped(ts + TTL) + maxClockSkew) && ok;
    }
  }

  /** The salt: the low byte of the next pseudo-random number. */
  function Salt(seed: bv64): Byte { (Xorshift.XorShift64S(seed).0 as int % 256) as char }

  lemma Assembled(id: Bytes, buff: Bytes, tag: Bytes, salt: Byte, stamp: Bytes)
    requires |id| == 8 && |buff| == 9 && |tag| == 5 && |stamp| == 8 && buff == [salt] + stamp
    requires id[0] == buff[0] && id[1] == buff[7] && id[2] == buff[8]
    requires id[3..] == tag
    ensures id == [salt] + stamp[6..] + tag
  {
    assert id == id[..3] + id[3..] && id[..3] == [salt] + stamp[6..];
  }

  // ------------------------------------------------------------------ accepted IDs

  lemma LastBytes(n: nat, w: nat)
    requires w >= 2
    ensures var b := BigEndian(n, w); b[w - 1] as int == n % 256 && b[w - 2] as int == n / 256 % 256
  {
    assert BigEndian(n / 256, w - 1)[w - 2] as int == n / 256 % 256;
  }

  lemma TwoDigits(n: nat)
    ensures n / 256 % 256 * 256 + n % 256 == n % 65536
  {
  }

  /** The low bytes of a number are its value modulo 2^16. */
  lemma LowBytes(n: nat)
    ensures var b := BigEndian(n, 8); b[6] as int * 256 + b[7] as int == n % 65536
  {
    LastBytes(n, 8);
    TwoDigits(n);
  }

  /** The low 16 bits of one time in the window of 2^16 seconds of another. */
  function InWindowOf(t: Time, now: Time): (r: Time)
    ensures r == t <==> t / WINDOW == now / WINDOW
  {
    now - now % WINDOW + t % WINDOW
  }

  /** The time restored from an issued ID is off by the windows gone by, whole ones. */
  lemma RestoredIssued(mac: Mac, salt: Byte, ip: Addr, t: Time, now: Time)
    ensures Restored(Issued(mac, salt, ip, t), now) == InWindowOf(t, now) == t + WINDOW * (now / WINDOW - t / WINDOW)
  {
    LowBytes(Unsigned(t));
  }

  /** For every hash: an issued ID passes, for whichever address, exactly when the tags for the two times agree. */
  lemma AcceptedIff(mac: Mac, skew: Time, salt: Byte, ip: Addr, t: Time, from: Addr, now: Time)
    ensures var ts := InWindowOf(t, now);
            Accepts(mac, skew, Issued(mac, salt, ip, t), from, now) <==>
              && Tag(mac, salt, ts, from) == Tag(mac, salt, t, ip)
              && Wrapped(ts - skew) < now < Wrapped(Wrapped(ts + TTL) + skew)
  {
    RestoredIssued(mac, salt, ip, t, now);
    var id := Issued(mac, salt, ip, t);
    assert id[3..CONN_ID_LEN] == Tag(mac, salt, t, ip);
  }

  /** The tags of two times with the same salt and address differ, unless the times are the same. */
  predicate Separates(mac: Mac, salt: Byte, ip: Addr, t: Time, u: Time) {
    t != u ==> Tag(mac, salt, t, ip) != Tag(mac, salt, u, ip)
  }

  /** What clocks and leeways stay within, so that no sum of them wraps. */
  predicate Sensible(t: int) { -0x2000_0000_0000_0000 <= t <= 0x2000_0000_0000_0000 }

  lemma SameWindow(skew: Time, t: Time, now: Time)
    requires Sensible(t) && Sensible(now) && Sensible(skew) && skew >= 0 && t / WINDOW == now / WINDOW
    ensures Wrapped(t - skew) == t - skew && now < Wrapped(Wrapped(t + TTL) + skew)
  {
    assert now < t + WINDOW;
  }

  /**
   An ID that comes back from its address passes exactly until the window of its time ends. The
   time to live has no say: it counts nanoseconds where the clock counts seconds.
   */
  lemma ValidUntilWindowEnds(mac: Mac, skew: Time, salt: Byte, ip: Addr, t: Time, now: Time)
    requires Sensible(t) && Sensible(now) && Sensible(skew) && skew >= 0
    ensures Separates(mac, salt, ip, t, InWindowOf(t, now)) ==>
              (Accepts(mac, skew, Issued(mac, salt, ip, t), ip, now) <==> t / WINDOW == now / WINDOW && t - skew < now)
  {
    AcceptedIff(mac, skew, salt, ip, t, ip, now);
    if t / WINDOW == now / WINDOW {
      SameWindow(skew, t, now);
    }
  }

  /**
   The two minutes promised: an ID of that age or less is accepted, an older one is not. With a
   leeway and a hash that tells the two times apart, this is kept exactly when the window
   ends just where it should, on the side the age is on.
   */
  lemma TwoMinutesKeptIff(mac: Mac, skew: Time, salt: Byte, ip: Addr, t: Time, now: Time)
    requires Sensible(t) && Sensible(now) && Sensible(skew) && skew > 0 && t <= now
    ensures Separates(mac, salt, ip, t, InWindowOf(t, now)) ==>
              ((Accepts(mac, skew, Issued(mac, salt, ip, t), ip, now) <==> now - t <= 120)
               <==> (t % WINDOW + (now - t) < WINDOW <==> now - t <= 120))
  {
    var accepted, separates := Accepts(mac, skew, Issued(mac, salt, ip, t), ip, now),
        Separates(mac, salt, ip, t, InWindowOf(t, now));
    assert separates ==> (accepted <==> t / WINDOW == now / WINDOW && t - skew < now) by {
      ValidUntilWindowEnds(mac, skew, salt, ip, t, now);
    }
    KeptByAge(separates, accepted, skew, t, now - t);
  }

  lemma KeptByAge(separates: bool, accepted: bool, skew: int, t: int, age: nat)
    requires skew > 0 && (separates ==> (accepted <==> t / WINDOW == (t + age) / WINDOW && t - skew < t + age))
    ensures separates ==> ((accepted <==> age <= 120) <==> (t % WINDOW + age < WINDOW <==> age <= 120))
  {
    WindowReached(t, age);
  }

  lemma WindowReached(t: int, age: nat)
    ensures t / WINDOW == (t + age) / WINDOW <==> t % WINDOW + age < WINDOW
  {
    var q, r := t / WINDOW, t % WINDOW;
    assert t == q * WINDOW + r;
    if r + age < WINDOW {
      assert (t + age) / WINDOW == q;
    } else {
      assert t + age >= (q + 1) * WINDOW;
    }
  }

  /** Not kept on either side, whatever the hash: an ID is still accepted after 18 hours, */
  lemma LongAfterTwoMinutes(mac: Mac, skew: Time, salt: Byte, ip: Addr)
    requires Sensible(skew) && skew > 0
    ensures Accepts(mac, skew, Issued(mac, salt, ip, 0), ip, 65535)
  {
    ValidUntilWindowEnds(mac, skew, salt, ip, 0, 65535);
  }

  /** and, unless the tags collide, refused one second after it was issued. */
  lemma RefusedAfterOneSecond(mac: Mac, skew: Time, salt: Byte, ip: Addr)
    requires Sensible(skew) && skew > 0
    ensures Separates(mac, salt, ip, 65535, 131071) ==> !Accepts(mac, skew, Issued(mac, salt, ip, 65535), ip, 65536)
  {
    assert InWindowOf(65535, 65536) == 131071;
    ValidUntilWindowEnds(mac, skew, salt, ip, 65535, 65536);
  }
}
