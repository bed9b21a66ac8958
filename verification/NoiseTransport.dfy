/** Messages of any length over Noise transport packets of bounded length (attest client_connection.rs;
    section 3 of the Noise Protocol Framework bounds a packet at 65535 bytes). */
module NoiseTransport {
  import opened Wrappers

  type Bytes = seq<bv8>

  const PER_PACKET_MAX: nat := 65535
  const PER_PAYLOAD_OVERHEAD: nat := 16
  const PER_PAYLOAD_MAX: nat := PER_PACKET_MAX - PER_PAYLOAD_OVERHEAD

  datatype NoiseError = InputError | DecryptError

  /** The AEAD of one direction, by packet number. */
  datatype Cipher = Cipher(seal: (nat, Bytes) -> Bytes, open: (nat, Bytes) -> Option<Bytes>)

  /** Sealing adds the overhead, opening undoes sealing and never yields more than the packet holds. */
  ghost predicate IsAead(c: Cipher) {
    && (forall n, p :: |c.seal(n, p)| == |p| + PER_PAYLOAD_OVERHEAD && c.open(n, c.seal(n, p)) == Some(p))
    && (forall n, p :: c.open(n, p).Some? ==> |c.open(n, p).value| <= |p|)
  }

  /** The number of pieces of at most k bytes. */
  function CeilDiv(len: nat, k: nat): nat
    requires k > 0
    decreases len
  {
    if len == 0 then 0 else if len <= k then 1 else 1 + CeilDiv(len - k, k)
  }

  lemma {:induction false} CeilDivIs(len: nat)
    ensures CeilDiv(len, PER_PAYLOAD_MAX) == (len + 65518) / 65519
  {
    if len > PER_PAYLOAD_MAX {
      CeilDivIs(len - PER_PAYLOAD_MAX);
    }
  }

  /** The packets of a message, one after the other. */
  function Sealed(c: Cipher, nonce: nat, plaintext: Bytes): Bytes
    decreases |plaintext|
  {
    if plaintext == [] then []
    else if |plaintext| <= PER_PAYLOAD_MAX then c.seal(nonce, plaintext)
    else c.seal(nonce, plaintext[..PER_PAYLOAD_MAX]) + Sealed(c, nonce + 1, plaintext[PER_PAYLOAD_MAX..])
  }

  /** Opening a ciphertext in pieces of the maximal packet length. */
  function Opened(c: Cipher, nonce: nat, ciphertext: Bytes): Option<Bytes>
    decreases |ciphertext|
  {
    if ciphertext == [] then Some([])
    else if |ciphertext| <= PER_PACKET_MAX then c.open(nonce, ciphertext)
    else
      match (c.open(nonce, ciphertext[..PER_PACKET_MAX]), Opened(c, nonce + 1, ciphertext[PER_PACKET_MAX..]))
      case (Some(p), Some(rest)) => Some(p + rest)
      case _ => None
  }

  /** The ciphertext is longer by the overhead of every packet. */
  lemma {:induction false} SealedLength(c: Cipher, nonce: nat, plaintext: Bytes)
    requires IsAead(c)
    ensures |Sealed(c, nonce, plaintext)| == |plaintext| + CeilDiv(|plaintext|, PER_PAYLOAD_MAX) * PER_PAYLOAD_OVERHEAD
    ensures CeilDiv(|Sealed(c, nonce, plaintext)|, PER_PACKET_MAX) == CeilDiv(|plaintext|, PER_PAYLOAD_MAX)
    decreases |plaintext|
  {
    if |plaintext| > PER_PAYLOAD_MAX {
      SealedLength(c, nonce + 1, plaintext[PER_PAYLOAD_MAX..]);
    }
  }

  /** The i-th packet carries payload bytes from 65519 * i on, under the i-th packet number, and is sent
      from byte 65535 * i on. */
  lemma {:induction false} PacketAt(c: Cipher, nonce: nat, plaintext: Bytes, i: nat)
    requires IsAead(c) && 65519 * i < |plaintext|
    ensures var sent := Sealed(c, nonce, plaintext);
      && |sent| == |plaintext| + 16 * ((|plaintext| + 65518) / 65519)
      && if |plaintext| <= 65519 * i + 65519 then
           65535 * i <= |sent| && sent[65535 * i..] == c.seal(nonce + i, plaintext[65519 * i..])
         else
           && 65535 * i + 65535 <= |sent|
           && sent[65535 * i..65535 * i + 65535] == c.seal(nonce + i, plaintext[65519 * i..65519 * i + 65519])
    decreases i
  {
    hide IsAead, CeilDiv, Sealed;
    SealedLength(c, nonce, plaintext);
    CeilDivIs(|plaintext|);
    assert plaintext[0..] == plaintext;
    var k := if 65519 <= |plaintext| then 65519 else |plaintext|;
    NextPacket(c, nonce, plaintext, 0, k);
    var packet, rest := c.seal(nonce, plaintext[..k]), plaintext[k..];
    var others := Sealed(c, nonce + 1, rest);
    if i > 0 {
      PacketAt(c, nonce + 1, rest, i - 1);
      Shifted(plaintext, k, rest, 65519 * (i - 1), 65519);
      Shifted(packet + others, 65535, others, 65535 * (i - 1), 65535);
    } else if |plaintext| <= 65519 {
      NothingLeft(c, nonce + 1, plaintext, packet);
      assert plaintext[..k] == plaintext == plaintext[0..] && (packet + others)[0..] == packet;
    } else {
      assert plaintext[0..65519] == plaintext[..k] && (packet + others)[0..65535] == packet;
    }
  }

  lemma Shifted(s: Bytes, k: nat, rest: Bytes, at: nat, len: nat)
    requires k <= |s| && rest == s[k..] && at <= |rest|
    ensures s[k + at..] == rest[at..]
    ensures at + len <= |rest| ==> s[k + at..k + at + len] == rest[at..at + len]
  {
  }

  /** Round trip: the pieces the receiver cuts are the packets that were sent. */
  lemma {:induction false} OpenedSealed(c: Cipher, nonce: nat, plaintext: Bytes)
    requires IsAead(c)
    ensures Opened(c, nonce, Sealed(c, nonce, plaintext)) == Some(plaintext)
    decreases |plaintext|
  {
    if plaintext == [] {
    } else if |plaintext| <= PER_PAYLOAD_MAX {
      assert |c.seal(nonce, plaintext)| <= PER_PACKET_MAX;
    } else {
      var p, rest := plaintext[..PER_PAYLOAD_MAX], plaintext[PER_PAYLOAD_MAX..];
      var packet, others := c.seal(nonce, p), Sealed(c, nonce + 1, rest);
      OpenedSealed(c, nonce + 1, rest);
      SealedLength(c, nonce + 1, rest);
      assert (packet + others)[..PER_PACKET_MAX] == packet && (packet + others)[PER_PACKET_MAX..] == others;
      assert plaintext == p + rest;
    }
  }

  class ClientConnection {
    const sending: Cipher
    const receiving: Cipher
    var sendNonce: nat
    var receiveNonce: nat

    constructor (sending: Cipher, receiving: Cipher)
      ensures this.sending == sending && this.receiving == receiving && sendNonce == 0 && receiveNonce == 0
    {
      this.sending, this.receiving := sending, receiving;
      sendNonce, receiveNonce := 0, 0;
    }

    /** One packet into a buffer from `at` on; fails when the packet is too long for Noise or the buffer. */
    method WriteMessage(payload: Bytes, buffer: array<bv8>, at: nat) returns (r: Result<nat, NoiseError>)
      requires at <= buffer.Length && IsAead(sending)
      modifies this`sendNonce, buffer
      ensures r.Ok? <==>
        var size := |payload| + PER_PAYLOAD_OVERHEAD; size <= PER_PACKET_MAX && at + size <= buffer.Length
      ensures r.Ok? ==> r.value == |payload| + PER_PAYLOAD_OVERHEAD && sendNonce == old(sendNonce) + 1
      ensures r.Ok? ==> buffer[..at + r.value] == old(buffer[..at]) + sending.seal(old(sendNonce), payload)
    {
      var packet := sending.seal(sendNonce, payload);
      if |payload| + PER_PAYLOAD_OVERHEAD > PER_PACKET_MAX || at + |payload| + PER_PAYLOAD_OVERHEAD > buffer.Length {
        return Err(InputError);
      }
      forall i | 0 <= i < |packet| {
        buffer[at + i] := packet[i];
      }
      sendNonce := sendNonce + 1;
      assert buffer[..at + |packet|] == old(buffer[..at]) + packet;
      return Ok(|packet|);
    }

    /** Opens one packet into a buffer from `at` on. */
    method ReadMessage(packet: Bytes, buffer: array<bv8>, at: nat) returns (r: Result<nat, NoiseError>)
      requires at <= buffer.Length
      modifies this`receiveNonce, buffer
      ensures r.Ok? <==> |packet| <= PER_PACKET_MAX && receiving.open(old(receiveNonce), packet).Some? &&
                         at + |receiving.open(old(receiveNonce), packet).value| <= buffer.Length
      ensures r.Ok? ==>
        r.value == |receiving.open(old(receiveNonce), packet).value| && receiveNonce == old(receiveNonce) + 1
      ensures r.Ok? ==> buffer[..at + r.value] == old(buffer[..at]) + receiving.open(old(receiveNonce), packet).value
    {
      if |packet| > PER_PACKET_MAX {
        return Err(InputError);
      }
      match receiving.open(receiveNonce, packet) {
        case None => return Err(DecryptError);
        case Some(payload) =>
          if at + |payload| > buffer.Length {
            return Err(InputError);
          }
          forall i | 0 <= i < |payload| {
            buffer[at + i] := payload[i];
          }
          receiveNonce := receiveNonce + 1;
          assert buffer[..at + |payload|] == old(buffer[..at]) + payload;
          return Ok(|payload|);
      }
    }

    /** Sends a message of any length: never fails, for the buffer always has room for the next packet. */
    method Send(plaintext: Bytes) returns (r: Result<Bytes, NoiseError>)
      requires IsAead(sending)
      modifies this`sendNonce
      ensures r == Ok(Sealed(sending, old(sendNonce), plaintext))
      ensures sendNonce == old(sendNonce) + CeilDiv(|plaintext|, PER_PAYLOAD_MAX)
    {
      hide IsAead, Sealed, CeilDiv;
      CeilDivIs(|plaintext|);
      var maxSize := |plaintext| + ((|plaintext| + PER_PAYLOAD_MAX - 1) / PER_PAYLOAD_MAX) * PER_PAYLOAD_OVERHEAD;
      var ciphertext := new bv8[maxSize](i => 0);
      var totalSize, p := 0, 0;
      SealedLength(sending, sendNonce, plaintext);
      assert plaintext[0..] == plaintext;
      while p < |plaintext|
        invariant 0 <= p <= |plaintext| && 0 <= totalSize <= ciphertext.Length
        invariant Sealed(sending, old(sendNonce), plaintext) ==
          ciphertext[..totalSize] + Sealed(sending, sendNonce, plaintext[p..])
        invariant |Sealed(sending, sendNonce, plaintext[p..])| == ciphertext.Length - totalSize
        invariant sendNonce + CeilDiv(|plaintext| - p, PER_PAYLOAD_MAX) ==
          old(sendNonce) + CeilDiv(|plaintext|, PER_PAYLOAD_MAX)
      {
        var q := if p + PER_PAYLOAD_MAX <= |plaintext| then p + PER_PAYLOAD_MAX else |plaintext|;
        NextPacket(sending, sendNonce, plaintext, p, q);
        Regrouped(ciphertext[..totalSize], sending.seal(sendNonce, plaintext[p..q]),
                  Sealed(sending, sendNonce + 1, plaintext[q..]));
        var written := WriteMessage(plaintext[p..q], ciphertext, totalSize);
        match written {
          case Err(e) => return Err(e);
          case Ok(size) => totalSize := totalSize + size;
        }
        p := q;
      }
      NothingLeft(sending, sendNonce, plaintext, ciphertext[..totalSize]);
      return Ok(ciphertext[..totalSize]);
    }

    /** Receives a message: opens the pieces of maximal packet length. */
    method Receive(ciphertext: Bytes) returns (r: Result<Bytes, NoiseError>)
      requires IsAead(receiving)
      modifies this`receiveNonce
      ensures r.Ok? <==> Opened(receiving, old(receiveNonce), ciphertext).Some?
      ensures r.Ok? ==> Some(r.value) == Opened(receiving, old(receiveNonce), ciphertext)
      ensures r.Ok? ==> receiveNonce == old(receiveNonce) + CeilDiv(|ciphertext|, PER_PACKET_MAX)
    {
      hide IsAead, Opened, CeilDiv;
      var plaintext := new bv8[|ciphertext|](i => 0);
      var totalSize, p := 0, 0;
      assert ciphertext[0..] == ciphertext;
      ghost var all := Opened(receiving, receiveNonce, ciphertext);
      assert all.Some? ==> plaintext[..0] + all.value == all.value;
      assert all == After(plaintext[..0], all);
      while p < |ciphertext|
        invariant 0 <= totalSize <= p <= |ciphertext| == plaintext.Length
        invariant all == After(plaintext[..totalSize], Opened(receiving, receiveNonce, ciphertext[p..]))
        invariant receiveNonce + CeilDiv(|ciphertext| - p, PER_PACKET_MAX) ==
          old(receiveNonce) + CeilDiv(|ciphertext|, PER_PACKET_MAX)
      {
        var q := if p + PER_PACKET_MAX <= |ciphertext| then p + PER_PACKET_MAX else |ciphertext|;
        NextPiece(receiving, receiveNonce, ciphertext, p, q, plaintext[..totalSize]);
        var got := ReadMessage(ciphertext[p..q], plaintext, totalSize);
        if got.Err? {
          return Err(got.error);
        }
        totalSize := totalSize + got.value;
        p := q;
      }
      NothingMore(receiving, receiveNonce, ciphertext, plaintext[..totalSize]);
      return Ok(plaintext[..totalSize]);
    }
  }

  lemma Regrouped(a: Bytes, b: Bytes, c: Bytes)
    ensures a + (b + c) == (a + b) + c
  {
  }

  lemma NothingLeft(c: Cipher, nonce: nat, plaintext: Bytes, done: Bytes)
    ensures Sealed(c, nonce, plaintext[|plaintext|..]) == [] && done + [] == done && CeilDiv(0, PER_PAYLOAD_MAX) == 0
  {
  }

  lemma NothingMore(c: Cipher, nonce: nat, ciphertext: Bytes, done: Bytes)
    ensures Opened(c, nonce, ciphertext[|ciphertext|..]) == Some([]) && done + [] == done
    ensures CeilDiv(0, PER_PACKET_MAX) == 0
  {
  }

  /** What was opened before, followed by what is opened now. */
  ghost function After(done: Bytes, rest: Option<Bytes>): Option<Bytes> {
    match rest
    case Some(p) => Some(done + p)
    case None => None
  }

  lemma NextPiece(c: Cipher, nonce: nat, ciphertext: Bytes, p: nat, q: nat, done: Bytes)
    requires IsAead(c) && p < |ciphertext|
    requires q == if p + PER_PACKET_MAX <= |ciphertext| then p + PER_PACKET_MAX else |ciphertext|
    ensures CeilDiv(|ciphertext| - p, PER_PACKET_MAX) == 1 + CeilDiv(|ciphertext| - q, PER_PACKET_MAX)
    ensures var first, rest := c.open(nonce, ciphertext[p..q]), Opened(c, nonce + 1, ciphertext[q..]);
      && (first.Some? ==> |first.value| <= q - p)
      && (first.None? ==> Opened(c, nonce, ciphertext[p..]).None?)
      && (first.Some? ==> After(done, Opened(c, nonce, ciphertext[p..])) == After(done + first.value, rest))
  {
    var rest := ciphertext[p..];
    var first, others := c.open(nonce, ciphertext[p..q]), Opened(c, nonce + 1, ciphertext[q..]);
    if first.Some? && others.Some? {
      Regrouped(done, first.value, others.value);
    }
    if |rest| > PER_PACKET_MAX {
      assert rest[..PER_PACKET_MAX] == ciphertext[p..q] && rest[PER_PACKET_MAX..] == ciphertext[q..];
    } else {
      assert ciphertext[p..q] == rest && ciphertext[q..] == [];
      assert first.Some? ==> first.value + [] == first.value;
    }
  }

  /** The packet number after a run of messages. */
  function NonceAfter(nonce: nat, messages: seq<Bytes>, perPacket: nat): nat
    requires perPacket > 0
  {
    if messages == [] then nonce
    else NonceAfter(nonce, messages[..|messages| - 1], perPacket) + CeilDiv(|messages[|messages| - 1]|, perPacket)
  }

  /** The ciphertexts of a run of messages: each starts with the packet number the one before it left. */
  function SealedAll(c: Cipher, nonce: nat, messages: seq<Bytes>): (r: seq<Bytes>)
    ensures |r| == |messages|
  {
    if messages == [] then []
    else
      var before := messages[..|messages| - 1];
      SealedAll(c, nonce, before) + [Sealed(c, NonceAfter(nonce, before, PER_PAYLOAD_MAX), messages[|messages| - 1])]
  }

  /** Opening a run of ciphertexts in turn; fails from the first one that does not open. */
  function OpenedAll(c: Cipher, nonce: nat, received: seq<Bytes>): Option<seq<Bytes>> {
    if received == [] then Some([])
    else
      var before := received[..|received| - 1];
      var next := NonceAfter(nonce, before, PER_PACKET_MAX);
      match (OpenedAll(c, nonce, before), Opened(c, next, received[|received| - 1]))
      case (Some(ps), Some(p)) => Some(ps + [p])
      case _ => None
  }

  /** Round trips over a run: opening what was sealed gives back every message, whatever their lengths,
      and leaves both sides with the same packet number. */
  lemma {:induction false} RunRoundTrip(c: Cipher, nonce: nat, messages: seq<Bytes>)
    requires IsAead(c)
    ensures OpenedAll(c, nonce, SealedAll(c, nonce, messages)) == Some(messages)
    ensures NonceAfter(nonce, SealedAll(c, nonce, messages), PER_PACKET_MAX) ==
      NonceAfter(nonce, messages, PER_PAYLOAD_MAX)
  {
    hide IsAead, Sealed, Opened, CeilDiv;
    if messages != [] {
      var before, last := messages[..|messages| - 1], messages[|messages| - 1];
      RunRoundTrip(c, nonce, before);
      var sealed := SealedAll(c, nonce, messages);
      assert sealed[..|sealed| - 1] == SealedAll(c, nonce, before);
      OpenedSealed(c, NonceAfter(nonce, before, PER_PAYLOAD_MAX), last);
      SealedLength(c, NonceAfter(nonce, before, PER_PAYLOAD_MAX), last);
      assert messages == before + [last];
    }
  }

  method SendAll(a: ClientConnection, messages: seq<Bytes>) returns (sent: seq<Bytes>)
    requires IsAead(a.sending)
    modifies a`sendNonce
    ensures sent == SealedAll(a.sending, old(a.sendNonce), messages)
    ensures a.sendNonce == NonceAfter(old(a.sendNonce), messages, PER_PAYLOAD_MAX)
  {
    hide IsAead, Sealed, CeilDiv;
    sent := [];
    for i := 0 to |messages|
      invariant sent == SealedAll(a.sending, old(a.sendNonce), messages[..i])
      invariant a.sendNonce == NonceAfter(old(a.sendNonce), messages[..i], PER_PAYLOAD_MAX)
    {
      assert messages[..i + 1][..i] == messages[..i];
      var packets := a.Send(messages[i]);
      sent := sent + [packets.value];
    }
    assert messages[..|messages|] == messages;
  }

  method ReceiveAll(b: ClientConnection, received: seq<Bytes>) returns (messages: Option<seq<Bytes>>)
    requires IsAead(b.receiving)
    modifies b`receiveNonce
    ensures messages == OpenedAll(b.receiving, old(b.receiveNonce), received)
    ensures messages.Some? ==> b.receiveNonce == NonceAfter(old(b.receiveNonce), received, PER_PACKET_MAX)
  {
    hide IsAead, Opened, CeilDiv;
    var out: seq<Bytes> := [];
    for i := 0 to |received|
      invariant OpenedAll(b.receiving, old(b.receiveNonce), received[..i]) == Some(out)
      invariant b.receiveNonce == NonceAfter(old(b.receiveNonce), received[..i], PER_PACKET_MAX)
    {
      assert received[..i + 1][..i] == received[..i];
      var message := b.Receive(received[i]);
      if message.Err? {
        NoneOpened(b.receiving, old(b.receiveNonce), received, i + 1, |received|);
        assert received[..|received|] == received;
        return None;
      }
      out := out + [message.value];
    }
    assert received[..|received|] == received;
    return Some(out);
  }

  lemma {:induction false} NoneOpened(c: Cipher, nonce: nat, received: seq<Bytes>, i: nat, j: nat)
    requires i <= j <= |received| && OpenedAll(c, nonce, received[..i]).None?
    ensures OpenedAll(c, nonce, received[..j]).None?
    decreases j
  {
    hide Opened, CeilDiv;
    if i < j {
      NoneOpened(c, nonce, received, i, j - 1);
      assert received[..j][..j - 1] == received[..j - 1];
    }
  }

  /** A run between two peers whose keys and counters match: what travels are the sealed packets, and the
      receiver has every message. */
  method Exchange(a: ClientConnection, b: ClientConnection, messages: seq<Bytes>)
    returns (sent: seq<Bytes>, received: Option<seq<Bytes>>)
    requires a != b && a.sending == b.receiving && IsAead(a.sending) && a.sendNonce == b.receiveNonce
    modifies a`sendNonce, b`receiveNonce
    ensures sent == SealedAll(a.sending, old(a.sendNonce), messages)
    ensures received == OpenedAll(b.receiving, old(b.receiveNonce), sent) == Some(messages)
    ensures a.sendNonce == b.receiveNonce == NonceAfter(old(a.sendNonce), messages, PER_PAYLOAD_MAX)
  {
    hide IsAead, SealedAll, OpenedAll, NonceAfter;
    RunRoundTrip(a.sending, a.sendNonce, messages);
    sent := SendAll(a, messages);
    received := ReceiveAll(b, sent);
  }

  lemma NextPacket(c: Cipher, nonce: nat, plaintext: Bytes, p: nat, q: nat)
    requires IsAead(c) && p < |plaintext|
    requires q == if p + PER_PAYLOAD_MAX <= |plaintext| then p + PER_PAYLOAD_MAX else |plaintext|
    ensures Sealed(c, nonce, plaintext[p..]) == c.seal(nonce, plaintext[p..q]) + Sealed(c, nonce + 1, plaintext[q..])
    ensures |c.seal(nonce, plaintext[p..q])| == q - p + PER_PAYLOAD_OVERHEAD
    ensures CeilDiv(|plaintext| - p, PER_PAYLOAD_MAX) == 1 + CeilDiv(|plaintext| - q, PER_PAYLOAD_MAX)
  {
    var rest := plaintext[p..];
    if |rest| > PER_PAYLOAD_MAX {
      assert rest[..PER_PAYLOAD_MAX] == plaintext[p..q] && rest[PER_PAYLOAD_MAX..] == plaintext[q..];
    } else {
      assert plaintext[p..q] == rest && plaintext[q..] == [];
    }
  }
}
