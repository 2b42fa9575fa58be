/** The block cipher, ECB with zero padding, and the two RMI envelopes. */
module Rmi {
  import opened Bytes
  import opened Wrappers

  const BLOCK: nat := 16
  const ENVELOPE_ENCRYPTED: byte := 0x26
  const ENVELOPE_PLAIN: byte := 0x01
  const CONTEXT_APP: byte := 0x01
  const INTERNAL_RMI_FLOOR: uint16 := 0xFA00

  datatype BlockFunctions = BlockFunctions(
    encrypt: (seq<byte>, seq<byte>) -> seq<byte>,
    decrypt: (seq<byte>, seq<byte>) -> seq<byte>)

  /** Under every key a block goes to a block and decryption undoes encryption. */
  ghost predicate Invertible(c: BlockFunctions) {
    forall key: seq<byte>, b: seq<byte> | |b| == BLOCK ::
      && |c.encrypt(key, b)| == BLOCK
      && |c.decrypt(key, b)| == BLOCK
      && c.decrypt(key, c.encrypt(key, b)) == b
  }

  /** All that the protocol needs of AES; the identity shows that such functions exist. */
  type BlockCipher = c: BlockFunctions | Invertible(c)
    ghost witness BlockFunctions((key: seq<byte>, b: seq<byte>) => b, (key: seq<byte>, b: seq<byte>) => b)

  datatype CryptoError = InvalidKeySize | NotBlockAligned | NotEncrypted | TooShort

  datatype Message = Message(id: uint16, body: seq<byte>)

  /** `aes.NewCipher` takes AES-128, AES-192 and AES-256 keys. */
  predicate ValidKey(key: seq<byte>) {
    |key| == 16 || |key| == 24 || |key| == 32
  }

  /** A control message of the transport, not an application call. */
  predicate IsInternal(msg: Message) {
    msg.id >= INTERNAL_RMI_FLOOR
  }

  function Zeros(n: nat): (z: seq<byte>)
    ensures |z| == n && forall i | 0 <= i < n :: z[i] == 0
  {
    seq(n, _ => 0)
  }

  /** A length brought up to whole blocks. */
  function Aligned(length: nat): (n: nat)
    ensures n % BLOCK == 0 && length <= n < length + BLOCK
  {
    (length + 15) / 16 * 16
  }

  function Padding(length: nat): (n: nat)
    ensures n < BLOCK && length + n == Aligned(length)
    ensures n == 0 <==> length % BLOCK == 0
  {
    Aligned(length) - length
  }

  function Padded(s: seq<byte>): (p: seq<byte>)
    ensures |p| % BLOCK == 0
  {
    s + Zeros(Padding(|s|))
  }

  /** Every block on its own: electronic codebook, section 6.1 of NIST SP 800-38A. */
  function Ecb(f: seq<byte> -> seq<byte>, s: seq<byte>): seq<byte>
    requires |s| % BLOCK == 0
  {
    if |s| == 0 then [] else f(s[..BLOCK]) + Ecb(f, s[BLOCK..])
  }

  ghost predicate OnBlocks(f: seq<byte> -> seq<byte>) {
    forall b: seq<byte> | |b| == BLOCK :: |f(b)| == BLOCK
  }

  lemma {:induction false} EcbLength(f: seq<byte> -> seq<byte>, s: seq<byte>)
    requires |s| % BLOCK == 0 && OnBlocks(f)
    ensures |Ecb(f, s)| == |s|
  {
    if |s| > 0 {
      EcbLength(f, s[BLOCK..]);
    }
  }

  lemma {:induction false} EcbSplit(f: seq<byte> -> seq<byte>, s: seq<byte>, k: nat)
    requires |s| % BLOCK == 0 && k % BLOCK == 0 && k <= |s|
    ensures Ecb(f, s) == Ecb(f, s[..k]) + Ecb(f, s[k..])
  {
    if k == 0 {
      assert s[k..] == s;
    } else {
      assert k >= BLOCK;
      EcbSplit(f, s[BLOCK..], k - BLOCK);
      assert s[..k][..BLOCK] == s[..BLOCK];
      assert s[..k][BLOCK..] == s[BLOCK..][..k - BLOCK];
      assert s[k..] == s[BLOCK..][k - BLOCK..];
    }
  }

  lemma EcbNext(f: seq<byte> -> seq<byte>, s: seq<byte>, k: nat)
    requires |s| % BLOCK == 0 && k % BLOCK == 0 && k + BLOCK <= |s|
    ensures Ecb(f, s[..k + BLOCK]) == Ecb(f, s[..k]) + f(s[k..k + BLOCK])
  {
    var t := s[..k + BLOCK];
    EcbSplit(f, t, k);
    assert t[..k] == s[..k] && t[k..] == s[k..k + BLOCK];
    assert t[k..][..BLOCK] == t[k..] && t[k..][BLOCK..] == [];
  }

  /** One turn of the encryption loop, in place: block `i` of the plaintext becomes ciphertext. */
  lemma EncryptStep(f: seq<byte> -> seq<byte>, p: seq<byte>, i: nat, was: seq<byte>, now: seq<byte>)
    requires OnBlocks(f) && |p| % BLOCK == 0 && i % BLOCK == 0 && i + BLOCK <= |p|
    requires was == Ecb(f, p[..i]) + p[i..]
    requires |was| == |p| && now == was[..i] + f(was[i..i + BLOCK]) + was[i + BLOCK..]
    ensures now == Ecb(f, p[..i + BLOCK]) + p[i + BLOCK..]
  {
    EcbLength(f, p[..i]);
    EcbNext(f, p, i);
    assert was[..i] == Ecb(f, p[..i]);
    assert was[i..i + BLOCK] == p[i..i + BLOCK];
    assert was[i + BLOCK..] == p[i + BLOCK..];
  }

  function Encryptor(c: BlockCipher, key: seq<byte>): (f: seq<byte> -> seq<byte>)
    ensures OnBlocks(f)
  {
    (b: seq<byte>) => c.encrypt(key, b)
  }

  function Decryptor(c: BlockCipher, key: seq<byte>): (f: seq<byte> -> seq<byte>)
    ensures OnBlocks(f)
  {
    (b: seq<byte>) => c.decrypt(key, b)
  }

  function EcbEncrypt(c: BlockCipher, key: seq<byte>, plaintext: seq<byte>): Result<seq<byte>, CryptoError> {
    if !ValidKey(key) then Failure(InvalidKeySize)
    else Success(Ecb(Encryptor(c, key), Padded(plaintext)))
  }

  function EcbDecrypt(c: BlockCipher, key: seq<byte>, ciphertext: seq<byte>): Result<seq<byte>, CryptoError> {
    if !ValidKey(key) then Failure(InvalidKeySize)
    else if |ciphertext| % BLOCK != 0 then Failure(NotBlockAligned)
    else Success(Ecb(Decryptor(c, key), ciphertext))
  }

  lemma NextBlock(i: nat, length: nat)
    requires i % BLOCK == 0 && length % BLOCK == 0 && i < length
    ensures (i + BLOCK) % BLOCK == 0 && i + BLOCK <= length
  {
  }

  /** Writes `block` over `out` at `at`, as the cipher writes its output slice. */
  method WriteBlock(out: array<byte>, at: nat, block: seq<byte>)
    requires at + |block| <= out.Length
    modifies out
    ensures out[..] == old(out[..])[..at] + block + old(out[..])[at + |block|..]
  {
    ghost var was := out[..];
    for i := 0 to |block|
      invariant out[..] == was[..at] + block[..i] + was[at + i..]
    {
      out[at + i] := block[i];
    }
  }

  /** The encryption loop: every block of the buffer in place. */
  method EncryptBlocks(c: BlockCipher, key: seq<byte>, out: array<byte>)
    requires out.Length % BLOCK == 0
    modifies out
    ensures out[..] == Ecb(Encryptor(c, key), old(out[..]))
  {
    ghost var f, p := Encryptor(c, key), out[..];
    assert p[..0] == [] && Ecb(f, []) == [];
    hide Ecb;
    var i := 0;
    while i < out.Length
      invariant 0 <= i <= out.Length && i % BLOCK == 0
      invariant out[..] == Ecb(f, p[..i]) + p[i..]
    {
      NextBlock(i, out.Length);
      ghost var was := out[..];
      var block := c.encrypt(key, out[i..i + 16]);
      assert block == f(was[i..i + 16]) && |block| == 16;
      WriteBlock(out, i, block);
      EncryptStep(f, p, i, was, out[..]);
      i := i + 16;
    }
    assert p[..i] == p;
    assert out[..] == Ecb(f, p);
  }

  method AESECBEncrypt(c: BlockCipher, key: seq<byte>, plaintext: seq<byte>) returns (r: Result<seq<byte>, CryptoError>)
    ensures r == EcbEncrypt(c, key, plaintext)
  {
    if !ValidKey(key) {
      return Failure(InvalidKeySize);
    }
    var out := new byte[Aligned(|plaintext|)](_ => 0);
    WriteBlock(out, 0, plaintext);
    assert out[..] == Padded(plaintext);
    EncryptBlocks(c, key, out);
    return Success(out[..]);
  }

  method AESECBDecrypt(c: BlockCipher, key: seq<byte>, ciphertext: seq<byte>)
    returns (r: Result<seq<byte>, CryptoError>)
    ensures r == EcbDecrypt(c, key, ciphertext)
  {
    if !ValidKey(key) {
      return Failure(InvalidKeySize);
    }
    if |ciphertext| % 16 != 0 {
      return Failure(NotBlockAligned);
    }
    ghost var f := Decryptor(c, key);
    var out := new byte[|ciphertext|](_ => 0);
    var i := 0;
    while i < |ciphertext|
      invariant 0 <= i <= |ciphertext| && i % BLOCK == 0
      invariant |Ecb(f, ciphertext[..i])| == i
      invariant out[..i] == Ecb(f, ciphertext[..i])
    {
      NextBlock(i, |ciphertext|);
      EcbNext(f, ciphertext, i);
      EcbLength(f, ciphertext[..i + 16]);
      WriteBlock(out, i, c.decrypt(key, ciphertext[i..i + 16]));
      i := i + 16;
    }
    assert ciphertext[..i] == ciphertext && out[..i] == out[..];
    return Success(out[..]);
  }

  lemma {:induction false} EcbInverse(c: BlockCipher, key: seq<byte>, s: seq<byte>)
    requires |s| % BLOCK == 0
    ensures |Ecb(Encryptor(c, key), s)| == |s|
    ensures Ecb(Decryptor(c, key), Ecb(Encryptor(c, key), s)) == s
  {
    var e, d := Encryptor(c, key), Decryptor(c, key);
    EcbLength(e, s);
    if |s| > 0 {
      EcbInverse(c, key, s[BLOCK..]);
      var t := Ecb(e, s);
      assert t[..BLOCK] == e(s[..BLOCK]) && t[BLOCK..] == Ecb(e, s[BLOCK..]);
      assert s == s[..BLOCK] + s[BLOCK..];
    }
  }

  /** What comes back is the plaintext and the zeros that padded it, never less. */
  lemma EcbRoundTrip(c: BlockCipher, key: seq<byte>, plaintext: seq<byte>)
    requires ValidKey(key)
    ensures var e := EcbEncrypt(c, key, plaintext);
            && e.Success? && |e.value| == |plaintext| + Padding(|plaintext|)
            && EcbDecrypt(c, key, e.value) == Success(plaintext + Zeros(Padding(|plaintext|)))
  {
    EcbInverse(c, key, Padded(plaintext));
  }

  /** Count, context byte, id and body: the plaintext of an encrypted RMI. */
  function Plaintext(count: uint16, msg: Message): seq<byte> {
    Put16(count) + [CONTEXT_APP] + Put16(msg.id) + msg.body
  }

  function EncodeEncrypted(c: BlockCipher, key: seq<byte>, count: uint16, msg: Message)
    : Result<seq<byte>, CryptoError>
  {
    match EcbEncrypt(c, key, Plaintext(count, msg))
    case Failure(e) => Failure(e)
    case Success(encrypted) => Success([ENVELOPE_ENCRYPTED] + encrypted)
  }

  function DecodeEncrypted(c: BlockCipher, key: seq<byte>, payload: seq<byte>): Result<(Message, uint16), CryptoError> {
    if |payload| == 0 || payload[0] != ENVELOPE_ENCRYPTED then Failure(NotEncrypted)
    else match EcbDecrypt(c, key, payload[1..])
      case Failure(e) => Failure(e)
      case Success(plain) =>
        if |plain| < 5 then Failure(TooShort)
        else Success((Message(Get16(plain, 3), plain[5..]), Get16(plain, 0)))
  }

  function EncodePlain(msg: Message): seq<byte> {
    [ENVELOPE_PLAIN] + Put16(msg.id) + msg.body
  }

  function DecodePlain(payload: seq<byte>): Option<Message> {
    if |payload| < 3 || payload[0] != ENVELOPE_PLAIN then None
    else Some(Message(Get16(payload, 1), payload[3..]))
  }

  method EncodeEncryptedRmi(c: BlockCipher, key: seq<byte>, count: uint16, msg: Message)
    returns (r: Result<seq<byte>, CryptoError>)
    ensures r == EncodeEncrypted(c, key, count, msg)
  {
    var plain := Put16(count);
    plain := plain + [CONTEXT_APP];
    plain := plain + Put16(msg.id);
    plain := plain + msg.body;
    var encrypted := AESECBEncrypt(c, key, plain);
    match encrypted
    case Failure(e) => return Failure(e);
    case Success(bytes) => return Success([ENVELOPE_ENCRYPTED] + bytes);
  }

  method DecodeEncryptedRmi(c: BlockCipher, key: seq<byte>, payload: seq<byte>)
    returns (r: Result<(Message, uint16), CryptoError>)
    ensures r == DecodeEncrypted(c, key, payload)
  {
    if |payload| == 0 || payload[0] != ENVELOPE_ENCRYPTED {
      return Failure(NotEncrypted);
    }
    var decrypted := AESECBDecrypt(c, key, payload[1..]);
    match decrypted
    case Failure(e) => return Failure(e);
    case Success(plain) =>
      if |plain| < 5 {
        return Failure(TooShort);
      }
      return Success((Message(Get16(plain, 3), plain[5..]), Get16(plain, 0)));
  }

  lemma PlainRoundTrip(msg: Message)
    ensures DecodePlain(EncodePlain(msg)) == Some(msg)
  {
    var p := EncodePlain(msg);
    assert p[3..] == msg.body;
  }

  /** Id and count come back exactly; the body comes back followed by the padding, so exactly
      when header and body fill whole blocks. */
  lemma EncryptedRoundTrip(c: BlockCipher, key: seq<byte>, count: uint16, msg: Message)
    requires ValidKey(key)
    ensures var e := EncodeEncrypted(c, key, count, msg);
            && e.Success? && |e.value| == 1 + 5 + |msg.body| + Padding(5 + |msg.body|)
            && e.value[0] == ENVELOPE_ENCRYPTED
            && var received := Message(msg.id, msg.body + Zeros(Padding(5 + |msg.body|)));
            && DecodeEncrypted(c, key, e.value) == Success((received, count))
            && (received == msg <==> (5 + |msg.body|) % BLOCK == 0)
  {
    var plain := Plaintext(count, msg);
    EcbRoundTrip(c, key, plain);
    var e := EncodeEncrypted(c, key, count, msg).value;
    assert e[1..] == EcbEncrypt(c, key, plain).value;
    var back := plain + Zeros(Padding(|plain|));
    assert back[5..] == msg.body + Zeros(Padding(5 + |msg.body|));
  }

  /** A wrong key size is refused on both sides, before any byte is produced. */
  lemma InvalidKeyRefused(c: BlockCipher, key: seq<byte>, count: uint16, msg: Message, payload: seq<byte>)
    requires !ValidKey(key)
    ensures EncodeEncrypted(c, key, count, msg) == Failure(InvalidKeySize)
    ensures DecodeEncrypted(c, key, payload).Failure?
  {
  }
}
