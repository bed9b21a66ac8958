/** Streaming AES-256-GCM (aes_gcm.rs): a message may be fed in pieces of any size. AES and the GHASH
    field multiplication stay uninterpreted; sections 6.4, 7.1 and 7.2 of NIST SP 800-38D say what the
    whole message's tag is. */
module GcmStream {
  import opened Wrappers

  type Bytes = seq<bv8>

  const TAG_SIZE: nat := 16
  const NONCE_SIZE: nat := 12

  /** The primitives: absorbing one block into a GHASH state, reading its value, and what a key gives. */
  datatype Gcm<!G> = Gcm(
    absorb: (G, Bytes) -> G, value: G -> Bytes, hashStart: Bytes -> G, stream: (Bytes, Bytes) -> nat -> bv8)

  function Zeros(n: nat): (r: Bytes)
    ensures |r| == n && forall i :: 0 <= i < n ==> r[i] == 0
  {
    seq(n, i => 0 as bv8)
  }

  /** Data filled up with zeros to whole blocks. */
  function Padded(data: Bytes): (r: Bytes)
    ensures |r| % TAG_SIZE == 0 && data <= r && |r| < |data| + TAG_SIZE
    ensures forall i :: |data| <= i < |r| ==> r[i] == 0
  {
    data + Zeros((TAG_SIZE - |data| % TAG_SIZE) % TAG_SIZE)
  }

  /** Absorbs whole blocks one after the other. */
  function AbsorbAll<G>(gcm: Gcm<G>, g: G, data: Bytes): G
    requires |data| % TAG_SIZE == 0
  {
    if data == [] then g
    else gcm.absorb(AbsorbAll(gcm, g, data[..|data| - TAG_SIZE]), data[|data| - TAG_SIZE..])
  }

  /** The big-endian bytes of x modulo 256^k. */
  function BigEndian(x: nat, k: nat): (r: Bytes)
    ensures |r| == k
  {
    if k == 0 then [] else BigEndian(x / 256, k - 1) + [(x % 256) as bv8]
  }

  function Pow256(k: nat): (r: nat)
    ensures r > 0
  {
    if k == 0 then 1 else 256 * Pow256(k - 1)
  }

  /** The number that big-endian bytes stand for: the i-th of k bytes counts 256^(k - 1 - i) times. */
  function NumberOf(s: Bytes): nat {
    if s == [] then 0 else (s[0] as nat) * Pow256(|s| - 1) + NumberOf(s[1..])
  }

  lemma {:induction false} NumberSnoc(s: Bytes, b: bv8)
    ensures NumberOf(s + [b]) == 256 * NumberOf(s) + b as nat
  {
    if s == [] {
      assert [b][1..] == [];
    } else {
      NumberSnoc(s[1..], b);
      assert (s + [b])[1..] == s[1..] + [b];
      Scaled(s[0] as nat, Pow256(|s| - 1));
    }
  }

  lemma Scaled(a: nat, p: nat)
    ensures a * (256 * p) == 256 * (a * p)
  {
  }

  lemma ByteBack(b: nat)
    requires b < 256
    ensures (b as bv8) as nat == b
  {
    var c := ByteWith(b);
    SameByte(c);
  }

  lemma {:induction false} ByteWith(b: nat) returns (c: bv8)
    requires b < 256
    ensures c as int == b
  {
    if b == 0 {
      c := 0;
    } else {
      var d := ByteWith(b - 1);
      NextByte(d);
      c := d + 1;
    }
  }

  lemma NextByte(c: bv8)
    requires c != 255
    ensures (c + 1) as int == c as int + 1
  {
  }

  lemma SameByte(c: bv8)
    ensures (c as int) as bv8 == c
  {
  }

  /** The bytes stand for the number modulo 256^k, and are its digits. */
  lemma {:induction false} BigEndianIs(x: nat, k: nat)
    ensures NumberOf(BigEndian(x, k)) == x % Pow256(k)
    ensures k > 0 ==> BigEndian(x, k)[k - 1] as nat == x % 256
    decreases k
  {
    if k > 0 {
      BigEndianIs(x / 256, k - 1);
      NumberSnoc(BigEndian(x / 256, k - 1), (x % 256) as bv8);
      ByteBack(x % 256);
      ModSplit(x, Pow256(k - 1));
    }
  }

  lemma ModSplit(x: nat, p: nat)
    requires p > 0
    ensures x % (256 * p) == 256 * ((x / 256) % p) + x % 256
  {
    var q, m := (x / 256) / p, (x / 256) % p;
    assert x / 256 == q * p + m;
    var r := 256 * m + x % 256;
    assert x == 256 * (q * p + m) + x % 256;
    Scaled(q, p);
    assert x == q * (256 * p) + r;
    assert m <= p - 1 && r < 256 * p;
    ModUnique(x, 256 * p, q, r);
  }

  lemma ModUnique(x: nat, d: nat, q: nat, r: nat)
    requires d > 0 && x == q * d + r && r < d
    ensures x % d == r && x / d == q
  {
    var t := x / d - q;
    assert t * d == r - x % d;
    if t > 0 {
      AtLeast(t, d);
    } else if t < 0 {
      AtLeast(-t, d);
    }
  }

  lemma AtLeast(t: int, d: nat)
    requires t > 0
    ensures t * d >= d
  {
    assert t * d == (t - 1) * d + d;
  }

  /** The i-th byte is the digit of 256^(k - 1 - i). */
  lemma {:induction false} BigEndianDigit(x: nat, k: nat, i: nat)
    requires i < k
    ensures BigEndian(x, k)[i] as nat == (x / Pow256(k - 1 - i)) % 256
    decreases k
  {
    hide Pow256;
    if i < k - 1 {
      BigEndianDigit(x / 256, k - 1, i);
      PowNext(k - 2 - i);
      DivSplit(x, Pow256(k - 2 - i));
    } else {
      PowNext(0);
      LastByte(x);
    }
  }

  lemma PowNext(k: nat)
    ensures Pow256(k + 1) == 256 * Pow256(k) && Pow256(0) == 1
  {
  }

  lemma LastByte(x: nat)
    ensures ((x % 256) as bv8) as nat == (x / 1) % 256
  {
    assert x / 1 == x;
    ByteBack(x % 256);
  }

  lemma DivSplit(x: nat, p: nat)
    requires p > 0
    ensures x / (256 * p) == (x / 256) / p
  {
    var q, m := (x / 256) / p, (x / 256) % p;
    assert x / 256 == q * p + m;
    Scaled(q, p);
    assert m <= p - 1 && 0 <= 256 * m + x % 256 < 256 * p;
    ModUnique(x, 256 * p, q, 256 * m + x % 256);
  }

  function XorBytes(a: Bytes, b: Bytes): (r: Bytes)
    requires |a| == |b|
    ensures |r| == |a| && forall i :: 0 <= i < |a| ==> r[i] == a[i] ^ b[i]
  {
    seq(|a|, i requires 0 <= i < |a| => a[i] ^ b[i])
  }

  ghost predicate WellFormed<G(!new)>(gcm: Gcm<G>) {
    forall g :: |gcm.value(g)| == TAG_SIZE
  }

  /** The tag of a whole ciphertext: GHASH over the padded associated data, the padded ciphertext and
      their lengths in bits, masked with the pad. */
  function TagOf<G(!new)>(gcm: Gcm<G>, start: G, pad: Bytes, ad: Bytes, c: Bytes): Bytes
    requires WellFormed(gcm) && |pad| == TAG_SIZE
  {
    var g := AbsorbAll(gcm, AbsorbAll(gcm, start, Padded(ad)), Padded(c));
    XorBytes(gcm.value(gcm.absorb(g, BigEndian(8 * |ad|, 8) + BigEndian(8 * |c|, 8))), pad)
  }

  lemma {:induction false} AbsorbAppends<G>(gcm: Gcm<G>, g: G, a: Bytes, b: Bytes)
    requires |a| % TAG_SIZE == 0 && |b| % TAG_SIZE == 0
    ensures AbsorbAll(gcm, g, a + b) == AbsorbAll(gcm, AbsorbAll(gcm, g, a), b)
    decreases |b|
  {
    hide AbsorbAll;
    if b == [] {
      assert a + b == a;
      NoBlock(gcm, AbsorbAll(gcm, g, a));
    } else {
      var e := |b| - TAG_SIZE;
      AbsorbAppends(gcm, g, a, b[..e]);
      assert (a + b)[..|a| + e] == a + b[..e];
      assert (a + b)[|a| + e..] == b[e..];
      LastBlock(gcm, g, a + b);
      LastBlock(gcm, AbsorbAll(gcm, g, a), b);
    }
  }

  lemma LastBlock<G>(gcm: Gcm<G>, g: G, data: Bytes)
    requires |data| % TAG_SIZE == 0 && data != []
    ensures |data| >= TAG_SIZE
    ensures AbsorbAll(gcm, g, data) ==
      gcm.absorb(AbsorbAll(gcm, g, data[..|data| - TAG_SIZE]), data[|data| - TAG_SIZE..])
  {
  }

  /** What a GHASH accumulator holds after a message m: its whole blocks absorbed, the rest buffered. */
  ghost predicate Absorbed<G>(gcm: Gcm<G>, g0: G, m: Bytes, g: G, buffered: Bytes) {
    && |buffered| < TAG_SIZE && |buffered| <= |m| && (|m| - |buffered|) % TAG_SIZE == 0
    && buffered == m[|m| - |buffered|..]
    && g == AbsorbAll(gcm, g0, m[..|m| - |buffered|])
  }

  /** Absorbing whole blocks that the buffer and new data make up. */
  lemma AbsorbMore<G>(gcm: Gcm<G>, g0: G, m: Bytes, g: G, buffered: Bytes, data: Bytes, whole: nat)
    requires Absorbed(gcm, g0, m, g, buffered)
    requires whole <= |buffered + data| < whole + TAG_SIZE && whole % TAG_SIZE == 0
    ensures Absorbed(gcm, g0, m + data, AbsorbAll(gcm, g, (buffered + data)[..whole]), (buffered + data)[whole..])
  {
    hide AbsorbAll;
    var b := buffered + data;
    var k := |m| - |buffered|;
    AbsorbAppends(gcm, g0, m[..k], b[..whole]);
    Regrouped(m, k, data, whole);
    assert k + whole == |m + data| - |b[whole..]|;
  }

  lemma Regrouped(m: Bytes, k: nat, data: Bytes, whole: nat)
    requires k <= |m| && whole <= |m[k..] + data|
    ensures (m + data)[..k + whole] == m[..k] + (m[k..] + data)[..whole]
    ensures (m + data)[k + whole..] == (m[k..] + data)[whole..]
  {
    assert m + data == m[..k] + (m[k..] + data);
  }

  class GcmGhash<G(!new)> {
    const gcm: Gcm<G>
    const start: G
    const pad: Bytes
    const ad: Bytes
    var ghash: G
    var msgBuf: array<bv8>
    var msgBufOffset: nat
    var msgLen: nat
    /** The message fed in so far. */
    ghost var message: Bytes

    ghost predicate Valid()
      reads this, msgBuf
    {
      && WellFormed(gcm) && |pad| == TAG_SIZE && msgBuf.Length == TAG_SIZE
      && msgBufOffset < TAG_SIZE && msgLen == |message|
      && Absorbed(gcm, AbsorbAll(gcm, start, Padded(ad)), message, ghash, msgBuf[..msgBufOffset])
    }

    constructor (gcm: Gcm<G>, start: G, pad: Bytes, ad: Bytes)
      requires WellFormed(gcm) && |pad| == TAG_SIZE
      ensures Valid() && fresh(msgBuf) && message == []
      ensures this.gcm == gcm && this.start == start && this.pad == pad && this.ad == ad
    {
      this.gcm, this.start, this.pad, this.ad := gcm, start, pad, ad;
      ghash := AbsorbAll(gcm, start, Padded(ad));
      msgBuf := new bv8[TAG_SIZE](i => 0);
      msgBufOffset, msgLen, message := 0, 0, [];
    }

    /** Fills the buffer up; a full buffer is absorbed. */
    method FillBuffer(msg: Bytes) returns (taking: nat)
      requires Valid() && msgBufOffset > 0
      modifies this, msgBuf
      ensures Valid() && msgBuf == old(msgBuf)
      ensures taking <= |msg| && message == old(message) + msg[..taking]
      ensures if taking == TAG_SIZE - old(msgBufOffset) then msgBufOffset == 0 else taking == |msg|
    {
      hide AbsorbAll, Absorbed, Padded, WellFormed;
      ghost var g0 := AbsorbAll(gcm, start, Padded(ad));
      ghost var was := msgBuf[..msgBufOffset];
      taking := if |msg| < TAG_SIZE - msgBufOffset then |msg| else TAG_SIZE - msgBufOffset;
      forall i | 0 <= i < taking {
        msgBuf[msgBufOffset + i] := msg[i];
      }
      msgBufOffset := msgBufOffset + taking;
      msgLen := msgLen + taking;
      ghost var now := was + msg[..taking];
      assert msgBuf[..msgBufOffset] == now;
      if msgBufOffset == TAG_SIZE {
        AbsorbMore(gcm, g0, message, ghash, was, msg[..taking], TAG_SIZE);
        OneBlock(gcm, ghash, now);
        assert now[..TAG_SIZE] == now == msgBuf[..] && now[TAG_SIZE..] == [];
        ghash := gcm.absorb(ghash, msgBuf[..]);
        msgBufOffset := 0;
        assert msgBuf[..0] == [];
      } else {
        AbsorbMore(gcm, g0, message, ghash, was, msg[..taking], 0);
        NoBlock(gcm, ghash);
        assert now[..0] == [] && now[0..] == now;
      }
      message := message + msg[..taking];
    }

    /** Absorbs whole blocks and buffers the rest, with nothing buffered before. */
    method UpdateAligned(msg: Bytes)
      requires Valid() && msgBufOffset == 0
      modifies this, msgBuf
      ensures Valid() && msgBuf == old(msgBuf) && message == old(message) + msg
    {
      hide AbsorbAll, Absorbed, Padded, WellFormed;
      msgLen := msgLen + |msg|;
      var fullBlocks := |msg| / 16;
      var leftover := |msg| - 16 * fullBlocks;
      assert (16 * fullBlocks) % 16 == 0;
      AbsorbMore(gcm, AbsorbAll(gcm, start, Padded(ad)), message, ghash, msgBuf[..0], msg, 16 * fullBlocks);
      assert msgBuf[..0] + msg == msg;
      NoBlock(gcm, ghash);
      if fullBlocks > 0 {
        ghash := AbsorbAll(gcm, ghash, msg[..16 * fullBlocks]);
      } else {
        assert msg[..16 * fullBlocks] == [];
      }
      forall i | 0 <= i < leftover {
        msgBuf[i] := msg[16 * fullBlocks + i];
      }
      msgBufOffset := leftover;
      assert msgBuf[..leftover] == msg[16 * fullBlocks..];
      message := message + msg;
    }

    /** Feeds in one piece of the message. */
    method Update(msg: Bytes)
      requires Valid()
      modifies this, msgBuf
      ensures Valid() && msgBuf == old(msgBuf) && message == old(message) + msg
    {
      hide AbsorbAll, Absorbed, Padded, WellFormed;
      if msgBufOffset > 0 {
        var taking := FillBuffer(msg);
        if msgBufOffset == 0 {
          UpdateAligned(msg[taking..]);
          assert old(message) + msg == old(message) + msg[..taking] + msg[taking..];
        } else {
          assert msg[..taking] == msg;
        }
        return;
      }
      UpdateAligned(msg);
    }

    /** The tag, masked with the pad. */
    method Finalize() returns (tag: Bytes)
      requires Valid()
      ensures tag == TagOf(gcm, start, pad, ad, message) && |tag| == TAG_SIZE
    {
      var g := ghash;
      if msgBufOffset > 0 {
        g := AbsorbAll(gcm, g, Padded(msgBuf[..msgBufOffset]));
      }
      PadEnd(gcm, AbsorbAll(gcm, start, Padded(ad)), message, ghash, msgBuf[..msgBufOffset]);
      g := gcm.absorb(g, BigEndian(8 * |ad|, 8) + BigEndian(8 * msgLen, 8));
      tag := XorBytes(gcm.value(g), pad);
    }
  }

  lemma NoBlock<G>(gcm: Gcm<G>, g: G)
    ensures AbsorbAll(gcm, g, []) == g
  {
  }

  lemma OneBlock<G>(gcm: Gcm<G>, g: G, b: Bytes)
    requires |b| == TAG_SIZE
    ensures AbsorbAll(gcm, g, b) == gcm.absorb(g, b)
  {
    assert b[..0] == [] && b[0..] == b;
  }

  lemma PadEnd<G>(gcm: Gcm<G>, g0: G, m: Bytes, g: G, buffered: Bytes)
    requires Absorbed(gcm, g0, m, g, buffered)
    ensures AbsorbAll(gcm, g0, Padded(m)) == if buffered == [] then g else AbsorbAll(gcm, g, Padded(buffered))
  {
    hide AbsorbAll;
    var k := |m| - |buffered|;
    assert m == m[..k] + buffered;
    if buffered == [] {
      assert Padded(m) == m && m[..k] == m;
    } else {
      assert |m| % TAG_SIZE == |buffered| % TAG_SIZE;
      assert Padded(m) == m[..k] + Padded(buffered);
      AbsorbAppends(gcm, g0, m[..k], Padded(buffered));
    }
  }

  // Counter mode -------------------------------------------------------------------------------

  /** Data combined with the key stream from position p on. */
  function Ctr(stream: nat -> bv8, p: nat, data: Bytes): (r: Bytes)
    ensures |r| == |data| && forall i :: 0 <= i < |data| ==> r[i] == data[i] ^ stream(p + i)
  {
    seq(|data|, i requires 0 <= i < |data| => data[i] ^ stream(p + i))
  }

  lemma CtrConcat(stream: nat -> bv8, p: nat, a: Bytes, b: Bytes)
    ensures Ctr(stream, p, a + b) == Ctr(stream, p, a) + Ctr(stream, p + |a|, b)
  {
  }

  lemma CtrInverse(stream: nat -> bv8, p: nat, a: Bytes)
    ensures Ctr(stream, p, Ctr(stream, p, a)) == a
  {
    forall i | 0 <= i < |a| ensures Ctr(stream, p, Ctr(stream, p, a))[i] == a[i] {
      XorTwice(a[i], stream(p + i));
    }
  }

  lemma XorTwice(x: bv8, k: bv8)
    ensures (x ^ k) ^ k == x
  {
  }

  datatype Error = InvalidNonceSize | InvalidKeySize | InvalidTag

  /** The counter starts at block 1; its first block masks the tag, the message starts at block 2. */
  const MESSAGE_START: nat := 32

  function TagPad(stream: nat -> bv8): (pad: Bytes)
    ensures |pad| == TAG_SIZE
  {
    Ctr(stream, TAG_SIZE, Zeros(TAG_SIZE))
  }

  function CheckSizes(key: Bytes, nonce: Bytes): Result<(), Error> {
    if |nonce| != NONCE_SIZE then Err(InvalidNonceSize)
    else if |key| != 32 then Err(InvalidKeySize)
    else Ok(())
  }

  /** The tag of a whole ciphertext under a key, a nonce and associated data. */
  function GcmTag<G(!new)>(gcm: Gcm<G>, key: Bytes, nonce: Bytes, ad: Bytes, c: Bytes): Bytes
    requires WellFormed(gcm)
  {
    TagOf(gcm, gcm.hashStart(key), TagPad(gcm.stream(key, nonce)), ad, c)
  }

  /** Shared by encryption and decryption: the key stream position and the tag accumulator. */
  class Session<G(!new)> {
    const gcm: Gcm<G>
    const key: Bytes
    const nonce: Bytes
    const ad: Bytes
    const ghash: GcmGhash<G>
    var position: nat
    /** All ciphertext of the session so far. */
    ghost var ciphertext: Bytes

    ghost predicate Valid()
      reads this, ghash, ghash.msgBuf
    {
      && ghash.Valid() && ghash.message == ciphertext && position == MESSAGE_START + |ciphertext|
      && ghash.gcm == gcm && ghash.ad == ad && ghash.start == gcm.hashStart(key)
      && ghash.pad == TagPad(gcm.stream(key, nonce))
    }

    constructor (gcm: Gcm<G>, key: Bytes, nonce: Bytes, ad: Bytes)
      requires WellFormed(gcm) && CheckSizes(key, nonce).Ok?
      ensures Valid() && fresh(ghash) && fresh(ghash.msgBuf) && ciphertext == []
      ensures this.gcm == gcm && this.key == key && this.nonce == nonce && this.ad == ad
    {
      this.gcm, this.key, this.nonce, this.ad := gcm, key, nonce, ad;
      ghash := new GcmGhash(gcm, gcm.hashStart(key), TagPad(gcm.stream(key, nonce)), ad);
      position, ciphertext := MESSAGE_START, [];
    }

    /** Applies the key stream to a buffer in place. */
    method ProcessCtr(buf: array<bv8>)
      modifies this`position, buf
      ensures buf[..] == Ctr(gcm.stream(key, nonce), old(position), old(buf[..]))
      ensures position == old(position) + buf.Length
    {
      var stream, p := gcm.stream(key, nonce), position;
      for i := 0 to buf.Length
        modifies buf
        invariant forall j :: 0 <= j < buf.Length ==>
          buf[j] == if j < i then old(buf[j]) ^ stream(p + j) else old(buf[j])
      {
        buf[i] := buf[i] ^ stream(p + i);
      }
      position := position + buf.Length;
    }

    method Encrypt(buf: array<bv8>)
      requires Valid() && buf != ghash.msgBuf
      modifies this, ghash, ghash.msgBuf, buf
      ensures Valid() && ghash.msgBuf == old(ghash.msgBuf)
      ensures buf[..] == Ctr(gcm.stream(key, nonce), MESSAGE_START + |old(ciphertext)|, old(buf[..]))
      ensures ciphertext == old(ciphertext) + buf[..]
    {
      ProcessCtr(buf);
      ghash.Update(buf[..]);
      ciphertext := ciphertext + buf[..];
    }

    method Decrypt(buf: array<bv8>)
      requires Valid() && buf != ghash.msgBuf
      modifies this, ghash, ghash.msgBuf, buf
      ensures Valid() && ghash.msgBuf == old(ghash.msgBuf)
      ensures buf[..] == Ctr(gcm.stream(key, nonce), MESSAGE_START + |old(ciphertext)|, old(buf[..]))
      ensures ciphertext == old(ciphertext) + old(buf[..])
    {
      ghash.Update(buf[..]);
      ciphertext := ciphertext + buf[..];
      ProcessCtr(buf);
    }

    method ComputeTag() returns (tag: Bytes)
      requires Valid()
      ensures tag == GcmTag(gcm, key, nonce, ad, ciphertext) && |tag| == TAG_SIZE
    {
      tag := ghash.Finalize();
    }

    method VerifyTag(tag: Bytes) returns (r: Result<(), Error>)
      requires Valid()
      ensures r == if tag == GcmTag(gcm, key, nonce, ad, ciphertext) then Ok(()) else Err(InvalidTag)
    {
      if |tag| != TAG_SIZE {
        return Err(InvalidTag);
      }
      var computed := ghash.Finalize();
      return if tag == computed then Ok(()) else Err(InvalidTag);
    }
  }

  // Whole messages in pieces -------------------------------------------------------------------------

  function Joined(pieces: seq<Bytes>): Bytes {
    if pieces == [] then [] else Joined(pieces[..|pieces| - 1]) + pieces[|pieces| - 1]
  }

  /** Encrypting a whole message: ciphertext and tag (section 7.1 of NIST SP 800-38D). */
  function Sealed<G(!new)>(gcm: Gcm<G>, key: Bytes, nonce: Bytes, ad: Bytes, plaintext: Bytes)
    : Result<(Bytes, Bytes), Error>
    requires WellFormed(gcm)
  {
    match CheckSizes(key, nonce)
    case Err(e) => Err(e)
    case Ok(_) =>
      var c := Ctr(gcm.stream(key, nonce), MESSAGE_START, plaintext);
      Ok((c, GcmTag(gcm, key, nonce, ad, c)))
  }

  /** Decrypting a whole ciphertext and checking its tag (section 7.2 of NIST SP 800-38D). */
  function Unsealed<G(!new)>(gcm: Gcm<G>, key: Bytes, nonce: Bytes, ad: Bytes, c: Bytes, tag: Bytes)
    : Result<Bytes, Error>
    requires WellFormed(gcm)
  {
    match CheckSizes(key, nonce)
    case Err(e) => Err(e)
    case Ok(_) =>
      if tag != GcmTag(gcm, key, nonce, ad, c) then Err(InvalidTag)
      else Ok(Ctr(gcm.stream(key, nonce), MESSAGE_START, c))
  }

  /** Encrypts or decrypts one piece in a buffer of its own. */
  method OnePiece<G(!new)>(s: Session<G>, piece: Bytes, encrypting: bool) returns (out: Bytes)
    requires s.Valid()
    modifies s, s.ghash, s.ghash.msgBuf
    ensures s.Valid() && s.ghash.msgBuf == old(s.ghash.msgBuf)
    ensures out == Ctr(s.gcm.stream(s.key, s.nonce), MESSAGE_START + |old(s.ciphertext)|, piece)
    ensures s.ciphertext == old(s.ciphertext) + if encrypting then out else piece
  {
    hide Absorbed, AbsorbAll, WellFormed, Padded;
    var buf := new bv8[|piece|](j requires 0 <= j < |piece| => piece[j]);
    assert buf[..] == piece;
    if encrypting {
      s.Encrypt(buf);
    } else {
      s.Decrypt(buf);
    }
    out := buf[..];
  }

  lemma NothingYet(stream: nat -> bv8, pieces: seq<Bytes>)
    ensures pieces[..0] == [] && Joined([]) == [] && Ctr(stream, MESSAGE_START, []) == []
  {
  }

  lemma OneMore(stream: nat -> bv8, pieces: seq<Bytes>, i: nat)
    requires i < |pieces|
    ensures Joined(pieces[..i + 1]) == Joined(pieces[..i]) + pieces[i]
    ensures Ctr(stream, MESSAGE_START, Joined(pieces[..i + 1])) ==
      Ctr(stream, MESSAGE_START, Joined(pieces[..i])) + Ctr(stream, MESSAGE_START + |Joined(pieces[..i])|, pieces[i])
  {
    assert pieces[..i + 1][..i] == pieces[..i];
    CtrConcat(stream, MESSAGE_START, Joined(pieces[..i]), pieces[i]);
  }

  /** Encrypting a message piece by piece gives the ciphertext and tag of the whole message. */
  method EncryptPieces<G(!new)>(gcm: Gcm<G>, key: Bytes, nonce: Bytes, ad: Bytes, pieces: seq<Bytes>)
    returns (r: Result<(Bytes, Bytes), Error>)
    requires WellFormed(gcm)
    ensures r == Sealed(gcm, key, nonce, ad, Joined(pieces))
  {
    hide GcmTag, WellFormed, Absorbed, AbsorbAll, Padded, Ctr, Joined, TagPad;
    if CheckSizes(key, nonce).Err? {
      return Err(CheckSizes(key, nonce).error);
    }
    NothingYet(gcm.stream(key, nonce), pieces);
    var e := new Session(gcm, key, nonce, ad);
    var out: Bytes := [];
    for i := 0 to |pieces|
      invariant e.Valid() && fresh(e) && fresh(e.ghash) && fresh(e.ghash.msgBuf)
      invariant e.gcm == gcm && e.key == key && e.nonce == nonce && e.ad == ad
      invariant e.ciphertext == out == Ctr(gcm.stream(key, nonce), MESSAGE_START, Joined(pieces[..i]))
    {
      var piece := OnePiece(e, pieces[i], true);
      out := out + piece;
      OneMore(gcm.stream(key, nonce), pieces, i);
    }
    assert pieces[..|pieces|] == pieces;
    var tag := e.ComputeTag();
    return Ok((out, tag));
  }

  /** Decrypting a ciphertext piece by piece, then checking a tag. */
  method DecryptPieces<G(!new)>(gcm: Gcm<G>, key: Bytes, nonce: Bytes, ad: Bytes, pieces: seq<Bytes>, tag: Bytes)
    returns (r: Result<Bytes, Error>)
    requires WellFormed(gcm)
    ensures r == Unsealed(gcm, key, nonce, ad, Joined(pieces), tag)
  {
    hide GcmTag, WellFormed, Absorbed, AbsorbAll, Padded, Ctr, Joined, TagPad;
    if CheckSizes(key, nonce).Err? {
      return Err(CheckSizes(key, nonce).error);
    }
    NothingYet(gcm.stream(key, nonce), pieces);
    var d := new Session(gcm, key, nonce, ad);
    var out: Bytes := [];
    for i := 0 to |pieces|
      invariant d.Valid() && fresh(d) && fresh(d.ghash) && fresh(d.ghash.msgBuf)
      invariant d.gcm == gcm && d.key == key && d.nonce == nonce && d.ad == ad
      invariant d.ciphertext == Joined(pieces[..i]) && out == Ctr(gcm.stream(key, nonce), MESSAGE_START, d.ciphertext)
    {
      var piece := OnePiece(d, pieces[i], false);
      out := out + piece;
      OneMore(gcm.stream(key, nonce), pieces, i);
    }
    assert pieces[..|pieces|] == pieces;
    var ok := d.VerifyTag(tag);
    if ok.Err? {
      return Err(ok.error);
    }
    return Ok(out);
  }

  /** Round trip: whatever the divisions into pieces, a received ciphertext decrypts to a message iff it
      is, with its tag, what encrypting that message gives. */
  lemma RoundTrip<G(!new)>(gcm: Gcm<G>, key: Bytes, nonce: Bytes, ad: Bytes, pieces: seq<Bytes>, received: seq<Bytes>,
                           tag: Bytes)
    requires WellFormed(gcm)
    ensures Unsealed(gcm, key, nonce, ad, Joined(received), tag) == Ok(Joined(pieces)) <==>
            Sealed(gcm, key, nonce, ad, Joined(pieces)) == Ok((Joined(received), tag))
  {
    hide GcmTag, WellFormed, Ctr, Joined;
    CtrInverse(gcm.stream(key, nonce), MESSAGE_START, Joined(pieces));
    CtrInverse(gcm.stream(key, nonce), MESSAGE_START, Joined(received));
  }

  // The whole algorithm, spelled out -----------------------------------------------------------------------

  /** The states g0, g1, … of absorbing the blocks of the data one after the other. */
  ghost predicate Chained<G>(gcm: Gcm<G>, data: Bytes, gs: seq<G>) {
    && |data| == 16 * (|gs| - 1)
    && forall i :: 0 <= i < |gs| - 1 ==> gs[i + 1] == gcm.absorb(gs[i], data[16 * i..16 * i + 16])
  }

  lemma ChainedMore<G>(gcm: Gcm<G>, data: Bytes, gs: seq<G>, block: Bytes)
    requires gs != [] && Chained(gcm, data, gs) && |block| == 16
    ensures Chained(gcm, data + block, gs + [gcm.absorb(gs[|gs| - 1], block)])
  {
    var data', gs' := data + block, gs + [gcm.absorb(gs[|gs| - 1], block)];
    forall i | 0 <= i < |gs'| - 1 ensures gs'[i + 1] == gcm.absorb(gs'[i], data'[16 * i..16 * i + 16]) {
      if i < |gs| - 1 {
        assert data'[16 * i..16 * i + 16] == data[16 * i..16 * i + 16];
      } else {
        assert data'[16 * i..16 * i + 16] == block;
      }
    }
  }

  /** Absorbing whole blocks goes through a state after each of them. */
  lemma {:induction false} AbsorbSteps<G>(gcm: Gcm<G>, g: G, data: Bytes, m: nat) returns (gs: seq<G>)
    requires |data| == 16 * m
    ensures |gs| == m + 1 && gs[0] == g && gs[m] == AbsorbAll(gcm, g, data) && Chained(gcm, data, gs)
    decreases m
  {
    hide AbsorbAll, Chained;
    if m == 0 {
      gs := [g];
      NoBlock(gcm, g);
      ChainedNone(gcm, g);
    } else {
      var before, block := data[..16 * (m - 1)], data[16 * (m - 1)..];
      var gs0 := AbsorbSteps(gcm, g, before, m - 1);
      LastBlock(gcm, g, data);
      ChainedMore(gcm, before, gs0, block);
      assert before + block == data;
      gs := gs0 + [gcm.absorb(gs0[m - 1], block)];
    }
  }

  lemma ChainedNone<G>(gcm: Gcm<G>, g: G)
    ensures Chained(gcm, [], [g])
  {
  }

  /** What is hashed: associated data and ciphertext, each filled up with zeros to whole blocks, and a block
      with their lengths in bits as 64-bit big-endian numbers. */
  ghost predicate IsHashed(data: Bytes, ad: Bytes, c: Bytes, a: nat, b: nat) {
    && 16 * a < |ad| + 16 <= 16 * a + 16 && 16 * b < |c| + 16 <= 16 * b + 16 && |data| == 16 * (a + b + 1)
    && data[..|ad|] == ad && (forall i :: |ad| <= i < 16 * a ==> data[i] == 0)
    && data[16 * a..16 * a + |c|] == c && (forall i :: 16 * a + |c| <= i < 16 * (a + b) ==> data[i] == 0)
    && var last := data[16 * (a + b)..];
    && (forall i :: 0 <= i < 8 ==> last[i] as nat == (8 * |ad| / Pow256(7 - i)) % 256)
    && (forall i :: 8 <= i < 16 ==> last[i] as nat == (8 * |c| / Pow256(15 - i)) % 256)
  }

  lemma HashedData(ad: Bytes, c: Bytes) returns (data: Bytes, a: nat, b: nat)
    ensures data == Padded(ad) + Padded(c) + (BigEndian(8 * |ad|, 8) + BigEndian(8 * |c|, 8))
    ensures IsHashed(data, ad, c, a, b) && |Padded(ad)| == 16 * a && |Padded(c)| == 16 * b
  {
    hide BigEndian, Padded;
    a, b := |Padded(ad)| / 16, |Padded(c)| / 16;
    data := Padded(ad) + Padded(c) + (BigEndian(8 * |ad|, 8) + BigEndian(8 * |c|, 8));
    LengthBlock(8 * |ad|, 8 * |c|);
    assert data[16 * (a + b)..] == BigEndian(8 * |ad|, 8) + BigEndian(8 * |c|, 8);
  }

  lemma LengthBlock(x: nat, y: nat)
    ensures var last := BigEndian(x, 8) + BigEndian(y, 8);
      && (forall i :: 0 <= i < 8 ==> last[i] as nat == (x / Pow256(7 - i)) % 256)
      && (forall i :: 8 <= i < 16 ==> last[i] as nat == (y / Pow256(15 - i)) % 256)
  {
    hide BigEndian, Pow256;
    forall i: nat | i < 8
      ensures BigEndian(x, 8)[i] as nat == (x / Pow256(7 - i)) % 256
      ensures BigEndian(y, 8)[i] as nat == (y / Pow256(7 - i)) % 256
    {
      BigEndianDigit(x, 8, i);
      BigEndianDigit(y, 8, i);
    }
  }

  /** A tag is the value of the hash after all blocks, masked. */
  lemma TagIs<G(!new)>(gcm: Gcm<G>, start: G, pad: Bytes, ad: Bytes, c: Bytes)
    returns (gs: seq<G>, data: Bytes, a: nat, b: nat)
    requires WellFormed(gcm) && |pad| == 16
    ensures IsHashed(data, ad, c, a, b) && |gs| == a + b + 2 && gs[0] == start && Chained(gcm, data, gs)
    ensures |TagOf(gcm, start, pad, ad, c)| == 16
    ensures forall i :: 0 <= i < 16 ==> TagOf(gcm, start, pad, ad, c)[i] == gcm.value(gs[a + b + 1])[i] ^ pad[i]
  {
    hide BigEndian, Padded, AbsorbAll, IsHashed, Chained;
    data, a, b := HashedData(ad, c);
    var lengths := BigEndian(8 * |ad|, 8) + BigEndian(8 * |c|, 8);
    AbsorbAppends(gcm, start, Padded(ad), Padded(c));
    AbsorbAppends(gcm, start, Padded(ad) + Padded(c), lengths);
    OneBlock(gcm, AbsorbAll(gcm, start, Padded(ad) + Padded(c)), lengths);
    gs := AbsorbSteps(gcm, start, data, a + b + 1);
  }

  /** Encryption spelled out: 12 bytes of nonce and 32 of key; the message is combined with the key stream
      from byte 32 on; the tag is the hash masked with bytes 16 to 31, so the two never meet. */
  lemma SealedIs<G(!new)>(gcm: Gcm<G>, key: Bytes, nonce: Bytes, ad: Bytes, plaintext: Bytes)
    returns (gs: seq<G>, data: Bytes, a: nat, b: nat)
    requires WellFormed(gcm)
    ensures var r := Sealed(gcm, key, nonce, ad, plaintext);
      if |nonce| != 12 then r == Err(InvalidNonceSize)
      else if |key| != 32 then r == Err(InvalidKeySize)
      else
        && r.Ok? && var (c, tag) := r.value;
        && |c| == |plaintext| && (forall i :: 0 <= i < |c| ==> c[i] == plaintext[i] ^ gcm.stream(key, nonce)(32 + i))
        && IsHashed(data, ad, c, a, b)
        && |gs| == a + b + 2 && gs[0] == gcm.hashStart(key) && Chained(gcm, data, gs)
        && |tag| == 16
        && forall i :: 0 <= i < 16 ==> tag[i] == gcm.value(gs[a + b + 1])[i] ^ gcm.stream(key, nonce)(16 + i)
  {
    hide TagOf, IsHashed, Chained;
    var stream := gcm.stream(key, nonce);
    PadIsStream(stream);
    gs, data, a, b := TagIs(gcm, gcm.hashStart(key), TagPad(stream), ad, Ctr(stream, MESSAGE_START, plaintext));
  }

  lemma PadIsStream(stream: nat -> bv8)
    ensures forall i :: 0 <= i < 16 ==> TagPad(stream)[i] == stream(16 + i)
  {
    forall i | 0 <= i < 16 ensures TagPad(stream)[i] == stream(16 + i) {
      XorNothing(stream(16 + i));
    }
  }

  lemma XorNothing(x: bv8)
    ensures 0 ^ x == x
  {
  }
}
