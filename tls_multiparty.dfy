/** The TLS helpers around the shared key: big-endian conversions between
    bytes and 64-bit integers, the XOR stand-in for RSA, the collaborative
    decryption, the erasure of key material, and the TLS 1.2 pseudo-random
    function (section 5 of RFC 5246) built on an HMAC that is a parameter
    of the model. */
module MultiPartyTls {
  import opened Results
  import opened Field
  import opened Fermat
  import opened Lagrange
  import opened Shamir
  import opened Chunks
  import opened Bytes

  /** The size of the demonstration key and of the public key, in bytes. */
  const KEY_BYTES: nat := 32
  /** The master secret's size. */
  const MASTER_SECRET_BYTES: nat := 48
  /** The output size of HMAC-SHA256. */
  const HASH_BYTES: nat := 32

  function Min(a: nat, b: nat): nat
  {
    if a < b then a else b
  }

  /** The weight of a base-256 digit: 256^e. */
  function Place(e: nat): (r: nat)
    ensures r > 0 && r == Pow(256, e)
  {
    if e == 0 then 1 else 256 * Place(e - 1)
  }

  // ---------------------------------------------------------------------
  // Bytes and integers.
  // ---------------------------------------------------------------------

  /** The number whose big-endian bytes are bs. */
  function FromBigEndian(bs: seq<byte>): (r: nat)
    ensures r < Place(|bs|)
  {
    if bs == [] then 0 else FromBigEndian(bs[..|bs| - 1]) * 256 + bs[|bs| - 1]
  }

  /** What `bytesToBigInt` reads: the first eight bytes (or all of them,
      if fewer), most significant first. */
  function BigIntOf(bytes: seq<byte>): nat
  {
    FromBigEndian(bytes[..Min(|bytes|, 8)])
  }

  /** `bytesToBigInt`: result := (result << 8) | byte over the first
      eight bytes; as the result is below 2^56 before each shift, the
      shift and the or are a multiplication by 256 and an addition. */
  method BytesToBigInt(bytes: seq<byte>) returns (result: u64)
    ensures result as nat == BigIntOf(bytes)
  {
    WordSize();
    result := 0;
    var i := 0;
    while i < |bytes| && i < 8
      invariant 0 <= i <= Min(|bytes|, 8)
      invariant result as nat == FromBigEndian(bytes[..i])
    {
      assert bytes[..i + 1][..i] == bytes[..i];
      PowLe(256, i, 7);
      assert Place(7) * 256 == Place(8);
      result := result * 256 + bytes[i] as u64;
      i := i + 1;
    }
  }

  /** The m low base-256 digits of v, most significant first. */
  function BigEndian(v: nat, m: nat): (r: seq<byte>)
    ensures |r| == m
  {
    seq(m, j requires 0 <= j < m => (v / Place(m - 1 - j)) % 256)
  }

  /** What `bigIntToBytes(value, length)` returns: length bytes, the
      first min(length, 8) holding value's low bytes most significant
      first, the rest zero. */
  function ToBytes(value: nat, length: nat): (r: seq<byte>)
    ensures |r| == length
  {
    BigEndian(value, Min(length, 8)) + seq(length - Min(length, 8), _ => 0)
  }

  /** `bigIntToBytes`: a zeroed buffer filled from position
      min(length, 8) - 1 down to 0 with the low byte of the value, which
      is shifted right by 8 after each byte. */
  method BigIntToBytes(value: u64, length: nat) returns (result: seq<byte>)
    ensures result == ToBytes(value, length)
  {
    var buf := new byte[length](_ => 0);
    var m := Min(length, 8);
    var v: nat := value as nat;
    var i := m;
    while i > 0
      invariant 0 <= i <= m
      invariant v == value as nat / Place(m - i)
      invariant forall j :: i <= j < m ==> buf[j] == (value as nat / Place(m - 1 - j)) % 256
      invariant forall j :: m <= j < length ==> buf[j] == 0
    {
      i := i - 1;
      buf[i] := v % 256;
      ModSplit(value as nat, Place(m - 1 - i), 256);
      v := v / 256;
    }
    result := buf[..];
    assert result[..m] == BigEndian(value, m);
    assert result[m..] == seq(length - m, _ => 0);
    assert result == result[..m] + result[m..];
  }

  /** Reading back the digits gives v modulo 256^m. */
  lemma {:induction false} BigEndianRoundTrip(v: nat, m: nat)
    ensures FromBigEndian(BigEndian(v, m)) == v % Place(m)
    decreases m
  {
    if m == 0 {
      DivModUnique(v, 1, v, 0);
    } else {
      var s := BigEndian(v, m);
      assert s[..m - 1] == BigEndian(v / 256, m - 1) by {
        forall j | 0 <= j < m - 1
          ensures s[j] == BigEndian(v / 256, m - 1)[j]
        {
          assert s[j] == (v / Place(m - 1 - j)) % 256;
          assert Place(m - 1 - j) == 256 * Place(m - 2 - j);
          ModSplit(v, 256, Place(m - 2 - j));
        }
      }
      assert s[m - 1] == v % 256 by {
        assert s[m - 1] == (v / Place(0)) % 256;
        DivModUnique(v, 1, v, 0);
      }
      BigEndianRoundTrip(v / 256, m - 1);
      ModSplit(v, 256, Place(m - 1));
    }
  }

  /** `bytesToBigInt(bigIntToBytes(v, L))` is v modulo 256^min(L, 8), so v
      itself once L is at least 8. */
  lemma BytesRoundTrip(value: u64, length: nat)
    ensures BigIntOf(ToBytes(value, length)) == value as nat % Place(Min(length, 8))
    ensures length >= 8 ==> BigIntOf(ToBytes(value, length)) == value as nat
  {
    var m := Min(length, 8);
    var bytes := ToBytes(value, length);
    assert bytes[..m] == BigEndian(value, m);
    BigEndianRoundTrip(value, m);
    if length >= 8 {
      WordSize();
      DivModUnique(value as nat, Place(8), 0, value as nat);
    }
  }

  // ---------------------------------------------------------------------
  // The XOR stand-in for RSA.
  // ---------------------------------------------------------------------

  /** The exclusive or of the n low bits of a and b, bit by bit. */
  function XorBits(a: nat, b: nat, n: nat): (r: nat)
    ensures r < Pow(2, n)
  {
    if n == 0 then 0
    else (if a % 2 == b % 2 then 0 else 1) + 2 * XorBits(a / 2, b / 2, n - 1)
  }

  /** `^` on two bytes. */
  function Xor(a: byte, b: byte): byte
  {
    assert Pow(2, 8) == 256;
    XorBits(a, b, 8)
  }

  /** XORing twice with the same bits gives the value back. */
  lemma {:induction false} XorBitsCancels(a: nat, b: nat, n: nat)
    requires a < Pow(2, n)
    ensures XorBits(XorBits(a, b, n), b, n) == a
  {
    if n > 0 {
      var bit := if a % 2 == b % 2 then 0 else 1;
      var rest := XorBits(a / 2, b / 2, n - 1);
      var x := XorBits(a, b, n);
      DivModUnique(x, 2, rest, bit);
      XorBitsCancels(a / 2, b / 2, n - 1);
    }
  }

  /** XORing a byte twice with the same byte gives it back. */
  lemma XorCancels(a: byte, b: byte)
    ensures Xor(Xor(a, b), b) == a
  {
    assert Pow(2, 8) == 256;
    XorBitsCancels(a, b, 8);
  }

  /** data with its first min(|data|, |key|) bytes XORed with the key. */
  function XorPrefix(data: seq<byte>, key: seq<byte>): (r: seq<byte>)
    ensures |r| == |data|
  {
    seq(|data|, i requires 0 <= i < |data| => if i < |key| then Xor(data[i], key[i]) else data[i])
  }

  /** XORing twice with the same key restores the data. */
  lemma XorPrefixInvolution(data: seq<byte>, key: seq<byte>)
    ensures XorPrefix(XorPrefix(data, key), key) == data
  {
    var once := XorPrefix(data, key);
    var twice := XorPrefix(once, key);
    forall i | 0 <= i < |data|
      ensures twice[i] == data[i]
    {
      if i < |key| {
        XorCancels(data[i], key[i]);
      }
    }
  }

  /** `encryptPreMasterSecret`: the length is kept and only the bytes
      the key covers change. */
  method EncryptPreMasterSecret(pms: seq<byte>, publicKey: seq<byte>) returns (encrypted: seq<byte>)
    ensures encrypted == XorPrefix(pms, publicKey)
  {
    encrypted := pms;
    var i := 0;
    while i < |encrypted| && i < |publicKey|
      invariant 0 <= i <= Min(|pms|, |publicKey|) && |encrypted| == |pms|
      invariant forall j :: 0 <= j < |pms| ==>
        encrypted[j] == if j < i then Xor(pms[j], publicKey[j]) else pms[j]
    {
      encrypted := encrypted[i := Xor(encrypted[i], publicKey[i])];
      i := i + 1;
    }
  }

  /** `secureErase`: every byte of the buffer is overwritten with zero
      and the vector's size becomes 0. */
  method SecureErase(data: array<byte>) returns (size: nat)
    modifies data
    ensures size == 0
    ensures forall i :: 0 <= i < data.Length ==> data[i] == 0
  {
    for i := 0 to data.Length
      invariant forall j :: 0 <= j < i ==> data[j] == 0
    {
      data[i] := 0;
    }
    size := 0;
  }

  // ---------------------------------------------------------------------
  // Collaborative decryption.
  // ---------------------------------------------------------------------

  datatype DecryptionError = InsufficientSharesForDecryption | SharingFailed(error: SharingError)

  /** What `collaborativeDecryption` computes: fewer shares than the
      threshold are refused; otherwise the first t shares give the key,
      whose 32-byte encoding is XORed onto the ciphertext. */
  function Decryption(t: u64, encrypted: seq<byte>, shares: seq<Share>): (r: Result<seq<byte>, DecryptionError>)
    ensures r == Err(InsufficientSharesForDecryption) <==> |shares| < t as int
    ensures r.Ok? ==> |r.value| == |encrypted|
  {
    if |shares| < t as int then Err(InsufficientSharesForDecryption)
    else match Reconstructed(t, PRIME, shares[..t])
      case Err(e) => Err(SharingFailed(e))
      case Ok(key) => Ok(XorPrefix(encrypted, ToBytes(key, KEY_BYTES)))
  }

  class TlsMultiParty {
    const threshold: u64
    const numParties: u64
    const sss: ShamirSecretSharing

    ghost predicate Valid()
    {
      sss.Valid() && sss.threshold == threshold && sss.numShares == numParties && sss.prime == PRIME
    }

    constructor (threshold: u64, numParties: u64)
      requires ParameterError(threshold, numParties, PRIME) == None
      ensures Valid() && this.threshold == threshold && this.numParties == numParties
    {
      this.threshold := threshold;
      this.numParties := numParties;
      sss := new ShamirSecretSharing(threshold, numParties, PRIME);
    }

    /** The constructor, which throws when the scheme refuses t and n. */
    static method Create(threshold: u64, numParties: u64) returns (r: Result<TlsMultiParty, SharingError>)
      ensures r.Err? <==> ParameterError(threshold, numParties, PRIME).Some?
      ensures r.Err? ==> Some(r.error) == ParameterError(threshold, numParties, PRIME)
      ensures r.Ok? ==> fresh(r.value) && r.value.Valid()
      ensures r.Ok? ==> r.value.threshold == threshold && r.value.numParties == numParties
    {
      var e := ParameterError(threshold, numParties, PRIME);
      if e.Some? {
        return Err(e.value);
      }
      var m := new TlsMultiParty(threshold, numParties);
      return Ok(m);
    }

    /** `generateAndDistributeKeys` on 32 random bytes: the key is their
        first eight bytes reduced modulo the prime, `split` always accepts
        it, and the public key is its 32-byte encoding. */
    method GenerateAndDistributeKeys(randomKey: seq<byte>)
      returns (publicKey: seq<byte>, shares: seq<Share>, ghost poly: seq<u64>)
      requires Valid() && |randomKey| == KEY_BYTES
      ensures publicKey == ToBytes(BigIntOf(randomKey) % PRIME as nat, KEY_BYTES)
      ensures IsSharingPolynomial(poly, (BigIntOf(randomKey) % PRIME as nat) as u64, threshold as nat, PRIME)
      ensures AreSharesOf(shares, poly, numParties as nat, PRIME)
    {
      var raw := BytesToBigInt(randomKey);
      var privateKey := raw % PRIME;
      var split;
      split, poly := sss.Split(privateKey);
      assert split.Ok?;
      shares := split.value;
      publicKey := BigIntToBytes(privateKey, KEY_BYTES);
    }

    /** `collaborativeDecryption`: the share ids are not used. */
    method CollaborativeDecryption(encrypted: seq<byte>, shares: seq<Share>, shareIds: seq<nat>)
      returns (r: Result<seq<byte>, DecryptionError>)
      requires Valid()
      ensures r == Decryption(threshold, encrypted, shares)
    {
      if |shares| < threshold as int {
        return Err(InsufficientSharesForDecryption);
      }
      var activeShares: seq<Share> := [];
      for i := 0 to Min(|shares|, threshold as nat)
        invariant activeShares == shares[..i]
      {
        assert shares[..i + 1] == shares[..i] + [shares[i]];
        activeShares := activeShares + [shares[i]];
      }
      var key := sss.Reconstruct(activeShares);
      if key.Err? {
        return Err(SharingFailed(key.error));
      }
      var keyBytes := BigIntToBytes(key.value, KEY_BYTES);
      var decrypted := EncryptPreMasterSecret(encrypted, keyBytes);
      var buffer := new byte[|keyBytes|](i requires 0 <= i < |keyBytes| => keyBytes[i]);
      var _ := SecureErase(buffer);
      return Ok(decrypted);
    }
  }

  /** Any t or more distinct shares of the key decrypt what was encrypted
      under its public key: the pre-master secret comes back. */
  lemma DecryptionInvertsEncryption(t: u64, n: u64, poly: seq<u64>, key: u64, all: seq<Share>, picks: seq<nat>, pms: seq<byte>)
    requires Prime(PRIME) && 2 <= t <= n < PRIME && key < PRIME
    requires IsSharingPolynomial(poly, key, t as nat, PRIME) && AreSharesOf(all, poly, n as nat, PRIME)
    requires |picks| >= t as int && forall k :: 0 <= k < |picks| ==> picks[k] < n as nat
    requires forall a, b :: 0 <= a < b < |picks| ==> picks[a] != picks[b]
    ensures Decryption(t, XorPrefix(pms, ToBytes(key, KEY_BYTES)), Pick(all, picks)) == Ok(pms)
  {
    var first := picks[..t];
    assert Pick(all, picks)[..t] == Pick(all, first);
    ReconstructRecoversSecret(t, n, PRIME, poly, key, all, first);
    XorPrefixInvolution(pms, ToBytes(key, KEY_BYTES));
  }

  // ---------------------------------------------------------------------
  // The TLS 1.2 pseudo-random function.
  // ---------------------------------------------------------------------

  /** An HMAC with a fixed output size, as HMAC-SHA256 has. */
  ghost predicate IsMac(hmac: (seq<byte>, seq<byte>) -> seq<byte>)
  {
    forall key, data :: |hmac(key, data)| == HASH_BYTES
  }

  /** A(0) = seed, A(i) = HMAC(secret, A(i - 1)). */
  function A(hmac: (seq<byte>, seq<byte>) -> seq<byte>, secret: seq<byte>, seed: seq<byte>, i: nat): seq<byte>
  {
    if i == 0 then seed else hmac(secret, A(hmac, secret, seed, i - 1))
  }

  /** HMAC(secret, A(1) + seed) + ... + HMAC(secret, A(n) + seed). */
  function Stream(hmac: (seq<byte>, seq<byte>) -> seq<byte>, secret: seq<byte>, seed: seq<byte>, n: nat): (r: seq<byte>)
    requires IsMac(hmac)
    ensures |r| == HASH_BYTES * n
  {
    if n == 0 then [] else Stream(hmac, secret, seed, n - 1) + hmac(secret, A(hmac, secret, seed, n) + seed)
  }

  /** P_hash truncated to the requested length: as many blocks as the
      length needs. */
  function PHashOf(hmac: (seq<byte>, seq<byte>) -> seq<byte>, secret: seq<byte>, seed: seq<byte>, length: nat): (r: seq<byte>)
    requires IsMac(hmac)
    ensures |r| == length
  {
    Stream(hmac, secret, seed, (length + HASH_BYTES - 1) / HASH_BYTES)[..length]
  }

  /** `p_hash`: blocks are appended until the output is long enough, then
      it is cut to the requested length. */
  method PHash(hmac: (seq<byte>, seq<byte>) -> seq<byte>, secret: seq<byte>, seed: seq<byte>, outputLength: nat)
    returns (result: seq<byte>)
    requires IsMac(hmac)
    ensures result == PHashOf(hmac, secret, seed, outputLength)
  {
    result := [];
    var a := seed;
    ghost var i: nat := 0;
    while |result| < outputLength
      invariant a == A(hmac, secret, seed, i) && result == Stream(hmac, secret, seed, i)
      invariant i > 0 ==> HASH_BYTES * (i - 1) < outputLength
      decreases outputLength - |result|
    {
      a := hmac(secret, a);
      var aAndSeed := a + seed;
      var block := hmac(secret, aAndSeed);
      result := result + block;
      i := i + 1;
    }
    assert i == (outputLength + HASH_BYTES - 1) / HASH_BYTES;
    result := result[..outputLength];
  }

  /** The first blocks of a longer stream are the shorter stream. */
  lemma {:induction false} StreamPrefix(hmac: (seq<byte>, seq<byte>) -> seq<byte>, secret: seq<byte>, seed: seq<byte>, m: nat, n: nat)
    requires IsMac(hmac) && m <= n
    ensures Stream(hmac, secret, seed, m) == Stream(hmac, secret, seed, n)[..HASH_BYTES * m]
    decreases n
  {
    if m < n {
      StreamPrefix(hmac, secret, seed, m, n - 1);
      var s := Stream(hmac, secret, seed, n);
      assert s[..HASH_BYTES * (n - 1)] == Stream(hmac, secret, seed, n - 1);
    } else {
      var s := Stream(hmac, secret, seed, n);
      assert s[..HASH_BYTES * n] == s;
    }
  }

  /** Asking for fewer bytes gives a prefix of the longer output. */
  lemma PHashPrefix(hmac: (seq<byte>, seq<byte>) -> seq<byte>, secret: seq<byte>, seed: seq<byte>, short: nat, long: nat)
    requires IsMac(hmac) && short <= long
    ensures PHashOf(hmac, secret, seed, short) == PHashOf(hmac, secret, seed, long)[..short]
  {
    var m := (short + HASH_BYTES - 1) / HASH_BYTES;
    var n := (long + HASH_BYTES - 1) / HASH_BYTES;
    StreamPrefix(hmac, secret, seed, m, n);
  }

  /** The label's characters converted to bytes (a `char` to `uint8_t`
      conversion keeps the low eight bits). */
  function LabelBytes(labelText: string): (r: seq<byte>)
    ensures |r| == |labelText|
    ensures forall i :: 0 <= i < |labelText| && labelText[i] as int < 256 ==> r[i] == labelText[i] as int
  {
    seq(|labelText|, i requires 0 <= i < |labelText| => labelText[i] as int % 256)
  }

  /** PRF(secret, labelText, seed) = P_SHA256(secret, labelText + seed). */
  function Prf(hmac: (seq<byte>, seq<byte>) -> seq<byte>, secret: seq<byte>, labelText: string, seed: seq<byte>, length: nat): (r: seq<byte>)
    requires IsMac(hmac)
    ensures |r| == length
  {
    PHashOf(hmac, secret, LabelBytes(labelText) + seed, length)
  }

  /** `tls_prf`: the label's bytes, then the seed, as the P_hash seed. */
  method TlsPrf(hmac: (seq<byte>, seq<byte>) -> seq<byte>, secret: seq<byte>, labelText: string, seed: seq<byte>, outputLength: nat)
    returns (r: seq<byte>)
    requires IsMac(hmac)
    ensures r == Prf(hmac, secret, labelText, seed, outputLength)
  {
    var labelAndSeed := LabelBytes(labelText) + seed;
    r := PHash(hmac, secret, labelAndSeed, outputLength);
  }

  /** `deriveMasterSecret`: 48 bytes of PRF(pms, "master secret",
      client_random + server_random). */
  method DeriveMasterSecret(hmac: (seq<byte>, seq<byte>) -> seq<byte>, pms: seq<byte>, clientRandom: seq<byte>, serverRandom: seq<byte>)
    returns (masterSecret: seq<byte>)
    requires IsMac(hmac)
    ensures |masterSecret| == MASTER_SECRET_BYTES
    ensures masterSecret == Prf(hmac, pms, "master secret", clientRandom + serverRandom, MASTER_SECRET_BYTES)
  {
    var seed := clientRandom + serverRandom;
    masterSecret := TlsPrf(hmac, pms, "master secret", seed, MASTER_SECRET_BYTES);
  }

  /** `deriveKeyBlock`: PRF(master_secret, "key expansion",
      server_random + client_random), the randoms in the opposite order. */
  method DeriveKeyBlock(hmac: (seq<byte>, seq<byte>) -> seq<byte>, masterSecret: seq<byte>, clientRandom: seq<byte>, serverRandom: seq<byte>, length: nat)
    returns (keyBlock: seq<byte>)
    requires IsMac(hmac)
    ensures |keyBlock| == length
    ensures keyBlock == Prf(hmac, masterSecret, "key expansion", serverRandom + clientRandom, length)
  {
    var seed := serverRandom + clientRandom;
    keyBlock := TlsPrf(hmac, masterSecret, "key expansion", seed, length);
  }
}
