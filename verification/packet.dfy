/** Encrypted packets: each carries its own salt and is sealed under the zero nonce. */
module Packet {
  import opened Bytes
  import opened Nonce
  import opened Aead
  import opened BloomRing
  import opened ShadowConn

  datatype Result = Ok(text: bytes) | Err(error: Error)

  /** The packet for a salt and a plaintext. */
  function Packed(key: AEAD, salt: bytes, plaintext: bytes): bytes {
    salt + key.seal(Zeros(key.nonceSize), plaintext)
  }

  /** What unpacking into `room` bytes makes of a packet. */
  function Unpacked(cipher: Cipher, packet: bytes, room: nat, repeated: bool): Result {
    if |packet| < cipher.saltSize then Err(ShortPacket)
    else
      var key := cipher.subkey(packet[..cipher.saltSize]);
      if key.None? then Err(BadKey)
      else if repeated then Err(RepeatedSalt)
      else if |packet| < cipher.saltSize + key.value.overhead then Err(ShortPacket)
      else if cipher.saltSize + room + key.value.overhead < |packet| then Err(ShortBuffer)
      else
        match key.value.open(Zeros(key.value.nonceSize), packet[cipher.saltSize..])
        case None => Err(AuthFailed)
        case Some(text) => Ok(text)
  }

  /** A salt of the packet is one the filter takes for seen. */
  ghost predicate SaltRepeated(cipher: Cipher, packet: bytes, filter: BloomRing?)
    reads filter, Slots(filter)
  {
    |packet| >= cipher.saltSize && Repeated(filter, packet[..cipher.saltSize])
  }

  /** A packed plaintext is recovered exactly when there is room for it. */
  lemma PacketRoundTrip(cipher: Cipher, key: AEAD, salt: bytes, plaintext: bytes, room: nat)
    requires |salt| == cipher.saltSize && cipher.subkey(salt) == Some(key) && RoundTrips(key)
    ensures Unpacked(cipher, Packed(key, salt, plaintext), room, false) ==
            if |plaintext| <= room then Ok(plaintext) else Err(ShortBuffer)
    ensures Unpacked(cipher, Packed(key, salt, plaintext), room, true) == Err(RepeatedSalt)
  {
    var packet := Packed(key, salt, plaintext);
    assert packet[..cipher.saltSize] == salt;
    assert packet[cipher.saltSize..] == key.seal(Zeros(key.nonceSize), plaintext);
  }

  /**
    When a packet is accepted, and as what: it has a whole salt with a key, which is not taken for
    seen, the key opens the rest under the nonce of all zeros, and there is room for the text.
   */
  lemma UnpackedWhen(cipher: Cipher, packet: bytes, room: nat, repeated: bool, text: bytes)
    ensures Unpacked(cipher, packet, room, repeated) == Ok(text) <==>
            !repeated && |text| <= room && Authentic(cipher, packet, text)
  {
  }

  /** `text` is what the key of the packet's salt opens. */
  ghost predicate Authentic(cipher: Cipher, packet: bytes, text: bytes) {
    && |packet| >= cipher.saltSize && cipher.subkey(packet[..cipher.saltSize]).Some?
    && var key := cipher.subkey(packet[..cipher.saltSize]).value;
       key.open(seq(key.nonceSize, _ => 0), packet[cipher.saltSize..]) == Some(text)
  }

  /** What is wrong with a packet that is not accepted, the first trouble first. */
  lemma RefusedWhy(cipher: Cipher, packet: bytes, room: nat, repeated: bool)
    ensures var r, n := Unpacked(cipher, packet, room, repeated), cipher.saltSize;
            if |packet| < n then r == Err(ShortPacket)
            else if cipher.subkey(packet[..n]).None? then r == Err(BadKey)
            else if repeated then r == Err(RepeatedSalt)
            else
              var key := cipher.subkey(packet[..n]).value;
              var opening := key.open(seq(key.nonceSize, _ => 0), packet[n..]);
              && (|packet| - n < key.overhead ==> r == Err(ShortPacket))
              && (|packet| - n - key.overhead > room ==> r == Err(ShortBuffer))
              && (0 <= |packet| - n - key.overhead <= room && opening.None? ==> r == Err(AuthFailed))
  {
  }

  /** Integrity: under an ideal key, only what was sealed under the nonce of all zeros is accepted. */
  lemma PacketIntegrity(cipher: Cipher, packet: bytes, room: nat, repeated: bool, log: seq<Seal>)
    requires Unpacked(cipher, packet, room, repeated).Ok?
    requires Ideal(cipher.subkey(packet[..cipher.saltSize]).value, log)
    ensures var key := cipher.subkey(packet[..cipher.saltSize]).value;
            Seal(seq(key.nonceSize, _ => 0), Unpacked(cipher, packet, room, repeated).text) in log
  {
    UnpackedWhen(cipher, packet, room, repeated, Unpacked(cipher, packet, room, repeated).text);
  }

  /** Puts salt and sealed plaintext into dst; n is the packet's length. */
  method Pack(dst: array<byte>, plaintext: bytes, cipher: Cipher, filter: BloomRing?)
    returns (n: nat, e: Error, ghost salt: bytes)
    requires cipher.saltSize <= dst.Length && ValidFilter(filter)
    modifies dst, filter, Slots(filter)
    ensures ValidFilter(filter) && |salt| == cipher.saltSize
    ensures cipher.subkey(salt).None? ==> e == BadKey
    ensures cipher.subkey(salt).Some? ==>
              && (filter != null ==> Repeated(filter, salt))
              && var packet := Packed(cipher.subkey(salt).value, salt, plaintext);
                 if dst.Length < |packet| then e == ShortBuffer
                 else e == Nil && n == |packet| && dst[..n] == packet
  {
    var s := RandomSalt(cipher.saltSize);
    salt := s;
    forall i | 0 <= i < |s| {
      dst[i] := s[i];
    }
    var key := cipher.subkey(s);
    if key == None {
      return 0, BadKey, salt;
    }
    AddSalt(filter, s);
    if dst.Length < cipher.saltSize + |plaintext| + key.value.overhead {
      return 0, ShortBuffer, salt;
    }
    var sealed := key.value.seal(Zeros(key.value.nonceSize), plaintext);
    forall i | 0 <= i < |sealed| {
      dst[|s| + i] := sealed[i];
    }
    n := cipher.saltSize + |sealed|;
    assert dst[..n] == s + sealed;
    e := Nil;
  }

  /** aead.Open(dst[lo:lo], nonce, src[from:to], nil): the two windows start together or are apart. */
  method OpenInto(a: AEAD, nonce: bytes, dst: array<byte>, lo: nat, src: array<byte>, from: nat, to: nat)
    returns (text: Option<bytes>)
    requires from <= to <= src.Length && lo <= dst.Length && (src != dst || lo == from)
    requires lo + (to - from) <= dst.Length + a.overhead
    modifies dst
    ensures text == a.open(nonce, old(src[from..to]))
    ensures dst[..lo] == old(dst[..lo])
    ensures text.Some? ==>
              lo + |text.value| <= dst.Length && dst[..lo + |text.value|] == old(dst[..lo]) + text.value
  {
    text := a.open(nonce, src[from..to]);
    if text.Some? {
      forall i | 0 <= i < |text.value| {
        dst[lo + i] := text.value[i];
      }
    } else {
      for i := lo to dst.Length
        invariant dst[..lo] == old(dst[..lo])
      {
        dst[i] := *;
      }
    }
  }

  /** Unpacks pkt[..n] into dst[lo..], which may be the same memory behind the salt. */
  method Unpack(dst: array<byte>, lo: nat, pkt: array<byte>, n: nat, cipher: Cipher, filter: BloomRing?)
    returns (m: nat, e: Error)
    requires n <= pkt.Length && lo <= dst.Length && (pkt != dst || lo == cipher.saltSize)
    requires ValidFilter(filter)
    modifies dst
    ensures match Unpacked(cipher, old(pkt[..n]), dst.Length - lo,
                           SaltRepeated(cipher, old(pkt[..n]), filter))
            case Ok(text) => e == Nil && m == |text| && dst[..lo + m] == old(dst[..lo]) + text
            case Err(error) => e == error
    ensures e == Nil ==> lo + m <= dst.Length
    ensures e == Nil ==>
              Authentic(cipher, old(pkt[..n]), dst[lo..lo + m]) && !SaltRepeated(cipher, old(pkt[..n]), filter)
  {
    m := 0;
    ghost var packet := pkt[..n];
    if n < cipher.saltSize {
      return 0, ShortPacket;
    }
    var salt := pkt[..cipher.saltSize];
    assert salt == packet[..cipher.saltSize];
    var key := cipher.subkey(salt);
    if key == None {
      return 0, BadKey;
    }
    var repeated := CheckSalt(filter, salt);
    if repeated {
      return 0, RepeatedSalt;
    }
    if n < cipher.saltSize + key.value.overhead {
      return 0, ShortPacket;
    }
    if cipher.saltSize + (dst.Length - lo) + key.value.overhead < n {
      return 0, ShortBuffer;
    }
    assert pkt[cipher.saltSize..n] == packet[cipher.saltSize..];
    var text := OpenInto(key.value, Zeros(key.value.nonceSize), dst, lo, pkt, cipher.saltSize, n);
    if text == None {
      return 0, AuthFailed;
    }
    assert dst[..lo + |text.value|][lo..] == dst[lo..lo + |text.value|];
    return |text.value|, Nil;
  }

  /** The datagram layer below: what does not fit is cut off. */
  method Receive(datagram: bytes, b: array<byte>) returns (n: nat)
    modifies b
    ensures n == Min(|datagram|, b.Length) && b[..n] == datagram[..n]
  {
    n := Min(|datagram|, b.Length);
    forall i | 0 <= i < n {
      b[i] := datagram[i];
    }
  }

  /** copy(b, b[shift:shift+m]): the windows may overlap. */
  method CopyDown(b: array<byte>, shift: nat, m: nat)
    requires shift + m <= b.Length
    modifies b
    ensures b[..m] == old(b[shift..shift + m])
  {
    forall i | 0 <= i < m {
      b[i] := b[shift + i];
    }
  }

  /** Receives into b, opens behind the salt in b and moves the plaintext to the front of b. */
  method ReadFrom(datagram: bytes, b: array<byte>, cipher: Cipher, filter: BloomRing?)
    returns (k: nat, e: Error)
    requires cipher.saltSize <= b.Length && ValidFilter(filter)
    modifies b
    ensures k <= b.Length
    ensures var packet := datagram[..Min(|datagram|, b.Length)];
            match Unpacked(cipher, packet, b.Length - cipher.saltSize,
                           SaltRepeated(cipher, packet, filter))
            case Ok(text) => e == Nil && k == |text| && b[..k] == text
            case Err(error) => e == error && k == |packet|
    ensures var packet := datagram[..Min(|datagram|, b.Length)];
            e == Nil ==> Authentic(cipher, packet, b[..k]) && !SaltRepeated(cipher, packet, filter)
  {
    var n := Receive(datagram, b);
    var m;
    m, e := Unpack(b, cipher.saltSize, b, n, cipher, filter);
    if e != Nil {
      return n, e;
    }
    ghost var text := b[cipher.saltSize..cipher.saltSize + m];
    assert b[..cipher.saltSize + m][cipher.saltSize..] == text;
    CopyDown(b, cipher.saltSize, m);
    k := m;
  }

  /**
    From one packet connection to another: the plaintext arrives if the packet fits and the
    receiver's filter does not take the salt for seen. A process that shares one filter between both
    ends never accepts its own packets.
   */
  method Exchange(
      plaintext: bytes, dst: array<byte>, b: array<byte>, cipher: Cipher,
      sender: BloomRing?, receiver: BloomRing?) returns (k: nat, e: Error, ghost salt: bytes)
    requires cipher.saltSize <= dst.Length && cipher.saltSize <= b.Length && dst != b
    requires ValidFilter(sender) && ValidFilter(receiver)
    requires sender != null && receiver != null && sender != receiver ==>
               forall f :: f in sender.slots ==> f !in receiver.slots
    requires forall s :: cipher.subkey(s).Some? ==> RoundTrips(cipher.subkey(s).value)
    modifies dst, b, sender, Slots(sender)
    ensures |salt| == cipher.saltSize
    ensures cipher.subkey(salt).Some? ==>
              var size := |Packed(cipher.subkey(salt).value, salt, plaintext)|;
              && (size <= dst.Length && size <= b.Length && !Repeated(receiver, salt) ==>
                    e == Nil && k == |plaintext| && b[..k] == plaintext)
              && (size <= dst.Length && size <= b.Length && sender == receiver != null ==>
                    e == RepeatedSalt)
  {
    var n;
    n, e, salt := Pack(dst, plaintext, cipher, sender);
    if e != Nil {
      return 0, e, salt;
    }
    PacketRoundTrip(cipher, cipher.subkey(salt).value, salt, plaintext, b.Length - cipher.saltSize);
    ghost var packet := dst[..n];
    assert packet[..|packet|] == packet && packet[..cipher.saltSize] == salt;
    k, e := ReadFrom(dst[..n], b, cipher, receiver);
  }

  // ----- Repeated salts -----

  /**
    With exact slots, a packet whose salt has a key is refused for its salt if and only if the salt is
    among the last ones this process has sent itself. What it receives does not enter the filter.
   */
  lemma PacketRefused(cipher: Cipher, packet: bytes, room: nat, filter: BloomRing)
    requires filter.Valid() && filter.Exact()
    requires |packet| >= cipher.saltSize && cipher.subkey(packet[..cipher.saltSize]).Some?
    ensures Unpacked(cipher, packet, room, SaltRepeated(cipher, packet, filter)) == Err(RepeatedSalt) <==>
            packet[..cipher.saltSize] in LastItems(filter.history, filter.Retained())
  {
    filter.Window(packet[..cipher.saltSize]);
  }

  /**
    So a replay of what another process has sent is accepted: the same datagram, received twice by one
    process with one filter, gives the same plaintext twice.
   */
  method ReplayedPacket(
      key: AEAD, salt: bytes, plaintext: bytes, b: array<byte>, c: array<byte>, cipher: Cipher,
      filter: BloomRing?) returns (k: nat, e: Error, k2: nat, e2: Error)
    requires b != c && ValidFilter(filter) && !Repeated(filter, salt)
    requires |salt| == cipher.saltSize && cipher.subkey(salt) == Some(key) && RoundTrips(key)
    requires |Packed(key, salt, plaintext)| <= b.Length && |Packed(key, salt, plaintext)| <= c.Length
    modifies b, c
    ensures ValidFilter(filter) && !Repeated(filter, salt)
    ensures e == e2 == Nil && k == k2 == |plaintext| && b[..k] == c[..k2] == plaintext
  {
    var datagram := Packed(key, salt, plaintext);
    assert datagram[..|datagram|] == datagram && datagram[..cipher.saltSize] == salt;
    PacketRoundTrip(cipher, key, salt, plaintext, b.Length - cipher.saltSize);
    PacketRoundTrip(cipher, key, salt, plaintext, c.Length - cipher.saltSize);
    k, e := ReadFrom(datagram, b, cipher, filter);
    k2, e2 := ReadFrom(datagram, c, cipher, filter);
  }
}
