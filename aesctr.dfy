/** The AES-CTR keystream cipher (AESCTR.java): counter mode as in section 6.5 of
    NIST SP 800-38A, with the standard incrementing function of its Appendix B.1
    applied to the whole 128-bit counter block. The AES block function itself
    (FIPS 197) is foreign code and enters the model as a parameter. */
module Aesctr {
  import opened Common
  import Buffers

  /** The AES forward block function under a key: what `AESFastEngine` computes
      after `init(true, key)`. */
  type BlockCipher = (Bytes, Block) -> Block

  /** A SHA-256 digest. */
  type Digest32 = s: Bytes | |s| == 32
    witness [0, 0, 0, 0, 0, 0, 0, 0, 0, 0, 0, 0, 0, 0, 0, 0, 0, 0, 0, 0, 0, 0, 0, 0, 0, 0, 0, 0, 0, 0, 0, 0]

  /** SHA-256 (FIPS 180-4) over a byte string; foreign code, passed in. */
  type Sha256 = Bytes -> Digest32

  // ---------------------------------------------------------------------------
  // The counter block as a big-endian number
  // ---------------------------------------------------------------------------

  function Pow256(n: nat): (r: nat)
    ensures r > 0
  {
    if n == 0 then 1 else Pow256(n - 1) * 256
  }

  const TWO_TO_128: nat := 0x1_0000_0000_0000_0000_0000_0000_0000_0000

  /** The number a byte string denotes, first byte most significant. */
  function BeValue(s: Bytes): nat
  {
    if s == [] then 0 else BeValue(s[..|s| - 1]) * 256 + s[|s| - 1] as nat
  }

  lemma {:induction false} BeValueBound(s: Bytes)
    ensures BeValue(s) < Pow256(|s|)
  {
    if s != [] {
      BeValueBound(s[..|s| - 1]);
    }
  }

  /** The incrementing function: add one to the last byte, carrying toward the
      first byte through every byte that wraps from 0xFF to 0. */
  function Increment(s: Bytes): (r: Bytes)
    ensures |r| == |s|
  {
    if s == [] then []
    else if s[|s| - 1] == 0xFF then Increment(s[..|s| - 1]) + [0]
    else s[..|s| - 1] + [s[|s| - 1] + 1]
  }

  /** Byte facts the value lemmas need. */
  lemma ByteNat(l: bv8)
    ensures l as nat <= 255
    ensures l == 0xFF ==> l as nat == 255
    ensures l != 0xFF ==> (l + 1) as nat == l as nat + 1
  {
  }

  /** Incrementing adds one to the big-endian value, except that the all-0xFF
      block wraps to zero: the increment is modulo 256^n. */
  lemma {:induction false} IncrementValue(s: Bytes)
    ensures BeValue(Increment(s)) == if BeValue(s) + 1 == Pow256(|s|) then 0 else BeValue(s) + 1
  {
    if s != [] {
      var p, l := s[..|s| - 1], s[|s| - 1];
      assert s == p + [l];
      if l == 0xFF {
        IncrementValue(p);
        IncrementCarry(p);
      } else {
        IncrementNoCarry(p, l);
      }
    }
  }

  /** A last byte of 0xFF wraps to zero and carries into the prefix. */
  lemma IncrementCarry(p: Bytes)
    requires BeValue(Increment(p)) == if BeValue(p) + 1 == Pow256(|p|) then 0 else BeValue(p) + 1
    ensures var s := p + [0xFF];
            BeValue(Increment(s)) == if BeValue(s) + 1 == Pow256(|s|) then 0 else BeValue(s) + 1
  {
    var s := p + [0xFF];
    assert s[..|s| - 1] == p;
    BeValueBound(p);
    ByteNat(0xFF);
    var r := Increment(p) + [0];
    assert r[..|r| - 1] == Increment(p);
    assert BeValue(r) == BeValue(Increment(p)) * 256;
  }

  /** Any other last byte just goes up by one. */
  lemma IncrementNoCarry(p: Bytes, l: bv8)
    requires l != 0xFF
    ensures var s := p + [l];
            BeValue(Increment(s)) == if BeValue(s) + 1 == Pow256(|s|) then 0 else BeValue(s) + 1
  {
    var s := p + [l];
    assert s[..|s| - 1] == p;
    BeValueBound(p);
    ByteNat(l);
    var r := p + [l + 1];
    assert r[..|r| - 1] == p;
    assert BeValue(r) == BeValue(p) * 256 + l as nat + 1;
  }

  /** The counter block after `j` increments of the initial vector. */
  function CounterAt(iv: Block, j: nat): (r: Block)
  {
    if j == 0 then iv else Increment(CounterAt(iv, j - 1))
  }

  lemma Pow256Of16()
    ensures Pow256(16) == TWO_TO_128
  {
    assert Pow256(4) == 0x1_0000_0000;
    assert Pow256(8) == 0x1_0000_0000 * Pow256(4);
    assert Pow256(12) == 0x1_0000_0000 * Pow256(8);
    assert Pow256(16) == 0x1_0000_0000 * Pow256(12);
  }

  /** The j-th counter block is IV + j modulo 2^128. */
  lemma {:induction false} CounterAtValue(iv: Block, j: nat)
    ensures BeValue(CounterAt(iv, j)) == (BeValue(iv) + j) % TWO_TO_128
  {
    if j == 0 {
      BeValueBound(iv);
      Pow256Of16();
    } else {
      CounterAtValue(iv, j - 1);
      CounterStep(iv, j, BeValue(CounterAt(iv, j - 1)));
    }
  }

  /** One increment of the counter block advances its value by one modulo 2^128. */
  lemma CounterStep(iv: Block, j: nat, v: nat)
    requires j > 0 && v == BeValue(CounterAt(iv, j - 1)) && v == (BeValue(iv) + (j - 1)) % TWO_TO_128
    ensures BeValue(CounterAt(iv, j)) == (BeValue(iv) + j) % TWO_TO_128
  {
    IncrementValue(CounterAt(iv, j - 1));
    Pow256Of16();
    ModSuccessor(v, BeValue(iv) + (j - 1), BeValue(iv) + j);
  }

  /** The successor modulo 2^128 of `a mod 2^128` is `(a + 1) mod 2^128`. */
  lemma ModSuccessor(v: nat, a: nat, b: nat)
    requires v == a % TWO_TO_128 && b == a + 1
    ensures (if v + 1 == TWO_TO_128 then 0 else v + 1) == b % TWO_TO_128
  {
  }

  // ---------------------------------------------------------------------------
  // The keystream
  // ---------------------------------------------------------------------------

  /** Keystream block number `j`: the block cipher applied to the counter IV + `j`. */
  function BlockAt(aes: BlockCipher, key: Bytes, iv: Block, j: nat): Block
  {
    aes(key, CounterAt(iv, j))
  }

  /** Keystream byte number `k` (counting from 0 at construction): byte `k mod 16`
      of keystream block `k div 16`. */
  function KeystreamByte(aes: BlockCipher, key: Bytes, iv: Block, k: nat): bv8
  {
    BlockAt(aes, key, iv, k / 16)[k % 16]
  }

  /** `n` keystream bytes starting at keystream position `start`. */
  function Keystream(aes: BlockCipher, key: Bytes, iv: Block, start: nat, n: nat): (r: Bytes)
    ensures |r| == n
  {
    if n == 0 then [] else Keystream(aes, key, iv, start, n - 1) + [KeystreamByte(aes, key, iv, start + n - 1)]
  }

  /** Byte `j` of the keystream slice is keystream byte `start + j`. */
  lemma {:induction false} KeystreamAt(aes: BlockCipher, key: Bytes, iv: Block, start: nat, n: nat, j: nat)
    requires j < n
    ensures Keystream(aes, key, iv, start, n)[j] == KeystreamByte(aes, key, iv, start + j)
  {
    if j < n - 1 {
      KeystreamAt(aes, key, iv, start, n - 1, j);
    }
  }

  /** The keystream is one stream: consuming `a` bytes and then `b` bytes yields
      what consuming `a + b` bytes at once does. */
  lemma KeystreamSplit(aes: BlockCipher, key: Bytes, iv: Block, start: nat, a: nat, b: nat)
    ensures Keystream(aes, key, iv, start, a + b) == Keystream(aes, key, iv, start, a) + Keystream(aes, key, iv, start + a, b)
  {
    var whole := Keystream(aes, key, iv, start, a + b);
    var parts := Keystream(aes, key, iv, start, a) + Keystream(aes, key, iv, start + a, b);
    forall j | 0 <= j < a + b ensures whole[j] == parts[j] {
      KeystreamAt(aes, key, iv, start, a + b, j);
      if j < a {
        KeystreamAt(aes, key, iv, start, a, j);
      } else {
        KeystreamAt(aes, key, iv, start + a, b, j - a);
      }
    }
  }

  /** What `processBuffer` does to `n` bytes at keystream position `start`. */
  function Apply(aes: BlockCipher, key: Bytes, iv: Block, start: nat, data: Bytes): (r: Bytes)
    ensures |r| == |data|
  {
    Xor(data, Keystream(aes, key, iv, start, |data|))
  }

  /** Byte `j` of the processed data is input byte `j` XOR keystream byte
      `start + j`. */
  lemma ApplyAt(aes: BlockCipher, key: Bytes, iv: Block, start: nat, data: Bytes, j: nat)
    requires j < |data|
    ensures Apply(aes, key, iv, start, data)[j] == data[j] ^ KeystreamByte(aes, key, iv, start + j)
  {
    KeystreamAt(aes, key, iv, start, |data|, j);
    XorAt(data, Keystream(aes, key, iv, start, |data|), j);
  }

  /** Encryption and decryption are one operation: a second cipher in the same
      starting state restores the input. */
  lemma ApplyTwice(aes: BlockCipher, key: Bytes, iv: Block, start: nat, data: Bytes)
    ensures Apply(aes, key, iv, start, Apply(aes, key, iv, start, data)) == data
  {
    XorTwice(data, Keystream(aes, key, iv, start, |data|));
  }

  /** Skipping `n` bytes and then applying the cipher to `data` gives the tail of
      applying a fresh cipher to `n` zero bytes followed by `data`. */
  lemma SkipThenApply(aes: BlockCipher, key: Bytes, iv: Block, n: nat, data: Bytes)
    ensures Apply(aes, key, iv, 0, seq(n, _ => 0) + data)[n..] == Apply(aes, key, iv, n, data)
  {
    var whole := Apply(aes, key, iv, 0, seq(n, _ => 0) + data);
    forall j | 0 <= j < |data| ensures whole[n + j] == Apply(aes, key, iv, n, data)[j] {
      assert (seq(n, _ => 0) + data)[n + j] == data[j];
      ApplyAt(aes, key, iv, 0, seq(n, _ => 0) + data, n + j);
      ApplyAt(aes, key, iv, n, data, j);
    }
  }

  /** Applying the cipher piecewise over consecutive chunks equals applying it
      once over their concatenation: state persists between calls. */
  lemma ApplyAppend(aes: BlockCipher, key: Bytes, iv: Block, start: nat, a: Bytes, b: Bytes)
    ensures Apply(aes, key, iv, start, a + b) == Apply(aes, key, iv, start, a) + Apply(aes, key, iv, start + |a|, b)
  {
    var ka, kb := Keystream(aes, key, iv, start, |a|), Keystream(aes, key, iv, start + |a|, |b|);
    KeystreamSplit(aes, key, iv, start, |a|, |b|);
    assert Keystream(aes, key, iv, start, |a + b|) == ka + kb;
    XorAppend(a, b, ka, kb);
  }

  /** A byte string that agrees with `before` outside `[offset, offset+length)` and
      holds `before` XOR keystream inside it is `before` with that range processed. */
  lemma ApplyInRange(aes: BlockCipher, key: Bytes, iv: Block, start: nat, before: Bytes, after: Bytes,
                     offset: nat, length: nat)
    requires |after| == |before| && offset + length <= |before|
    requires forall k :: 0 <= k < offset || offset + length <= k < |before| ==> after[k] == before[k]
    requires forall k :: offset <= k < offset + length ==>
      after[k] == before[k] ^ KeystreamByte(aes, key, iv, start + (k - offset))
    ensures after == before[..offset] + Apply(aes, key, iv, start, before[offset..offset + length]) + before[offset + length..]
  {
    var mid := Apply(aes, key, iv, start, before[offset..offset + length]);
    var expected := before[..offset] + mid + before[offset + length..];
    forall k | 0 <= k < |before| ensures after[k] == expected[k] {
      if offset <= k < offset + length {
        assert expected[k] == mid[k - offset];
        ApplyAt(aes, key, iv, start, before[offset..offset + length], k - offset);
      } else if k >= offset + length {
        assert expected[k] == before[offset + length..][k - offset - length];
      }
    }
  }

  // ---------------------------------------------------------------------------
  // The cipher object
  // ---------------------------------------------------------------------------

  /** The counter loop of `generateGamma()`: from the last byte toward the
      first, add one and stop at the first byte that does not wrap to zero. */
  method IncrementInPlace(counter: array<bv8>)
    modifies counter
    ensures counter[..] == Increment(old(counter[..]))
  {
    ghost var was := counter[..];
    assert was[..counter.Length] == was && counter[counter.Length..] == [];
    var i := counter.Length - 1;
    while i >= 0
      invariant -1 <= i < counter.Length
      invariant counter[..i + 1] == was[..i + 1]
      invariant Increment(was) == Increment(was[..i + 1]) + counter[i + 1..]
    {
      ghost var tail := counter[i + 1..];
      counter[i] := counter[i] + 1;
      assert counter[i + 1..] == tail;
      if counter[i] != 0 {
        assert Increment(was[..i + 1]) == was[..i] + [was[i] + 1] by {
          assert was[..i + 1][..i] == was[..i];
        }
        assert counter[..i + 1] == was[..i] + [was[i] + 1];
        assert counter[..] == counter[..i + 1] + counter[i + 1..];
        return;
      }
      assert Increment(was[..i + 1]) == Increment(was[..i]) + [0] by {
        assert was[..i + 1][..i] == was[..i];
      }
      assert counter[i..] == [0] + counter[i + 1..];
      i := i - 1;
    }
    assert was[..0] == [] && counter[0..] == counter[..];
  }

  class AESCTR {
    const aes: BlockCipher
    const key: Bytes
    /** The initial vector; the counter is derived from it. */
    ghost const iv: Block
    const counter: array<bv8>
    const gamma: array<bv8>
    var gammaPos: int
    /** Keystream bytes consumed since construction. */
    ghost var position: nat
    ghost const Repr: set<object>

    /** The cursor invariant: `gamma` is the block for the current position, the
        cursor is the position modulo 16, and `counter` is already one ahead. */
    ghost predicate Valid()
      reads this, counter, gamma
    {
      && Repr == {this, counter, gamma}
      && counter != gamma
      && counter.Length == 16 && gamma.Length == 16
      && 0 <= gammaPos < 16
      && gammaPos == position % 16
      && gamma[..] == BlockAt(aes, key, iv, position / 16)
      && counter[..] == CounterAt(iv, position / 16 + 1)
    }

    /** The next keystream byte this cipher will use. */
    ghost function NextByte(): bv8
      reads this
    {
      KeystreamByte(aes, key, iv, position)
    }

    /** `new AESCTR(key, iv)` for a 16-byte IV (the IV check is in `Create`):
        the counter starts at IV, the first block is generated at once. */
    constructor (aes: BlockCipher, key: Bytes, iv: Bytes)
      requires |iv| == 16
      ensures Valid() && fresh(Repr)
      ensures this.aes == aes && this.key == key && this.iv == iv && position == 0
      ensures gammaPos == 0 && gamma[..] == aes(key, iv) && counter[..] == Increment(iv)
    {
      this.aes := aes;
      this.key := key;
      this.iv := iv;
      var c := new bv8[16];
      forall k | 0 <= k < 16 {
        c[k] := iv[k];
      }
      counter := c;
      gamma := new bv8[16];
      position := 0;
      Repr := {this, c, gamma};
      new;
      assert counter[..] == iv;
      GenerateGamma();
      assert CounterAt(iv, 1) == Increment(iv);
    }

    /** `generateGamma()`: encrypts the counter into `gamma`, rewinds the cursor
        and increments the counter as a 128-bit big-endian number. */
    method GenerateGamma()
      requires counter != gamma && counter.Length == 16 && gamma.Length == 16
      modifies this`gammaPos, counter, gamma
      ensures gamma[..] == aes(key, old(counter[..]))
      ensures counter[..] == Increment(old(counter[..]))
      ensures gammaPos == 0
    {
      var block := aes(key, counter[..]);
      forall k | 0 <= k < 16 {
        gamma[k] := block[k];
      }
      gammaPos := 0;
      assert counter[..] == old(counter[..]);
      IncrementInPlace(counter);
    }

    /** `nextGamma()`: returns the next keystream byte and advances by one; the
        16th byte of a block triggers the generation of the next block. */
    method NextGamma() returns (r: bv8)
      requires Valid()
      modifies this`gammaPos, this`position, counter, gamma
      ensures Valid() && position == old(position) + 1
      ensures r == KeystreamByte(aes, key, iv, old(position))
    {
      r := gamma[gammaPos];
      gammaPos := gammaPos + 1;
      position := position + 1;
      if gammaPos >= 16 {
        GenerateGamma();
      }
    }

    /** `skipGamma(n)`: discards `n` keystream bytes (none for `n <= 0`). */
    method SkipGamma(n: int)
      requires Valid()
      modifies this`gammaPos, this`position, counter, gamma
      ensures Valid() && position == old(position) + (if n > 0 then n else 0)
    {
      var i := 0;
      while i < n
        invariant Valid()
        invariant 0 <= i <= (if n > 0 then n else 0)
        invariant position == old(position) + i
      {
        var _ := NextGamma();
        i := i + 1;
      }
    }

    /** `processBuffer(x, offset, length)`: XORs `x[offset..offset+length)` with
        the next `length` keystream bytes, in index order, and leaves the rest of
        `x` alone. */
    method ProcessArrayRange(x: array<bv8>, offset: nat, length: nat)
      requires Valid() && x !in Repr
      requires offset + length <= x.Length
      modifies this`gammaPos, this`position, counter, gamma, x
      ensures Valid() && position == old(position) + length
      ensures x[..] == old(x[..offset]) + Apply(aes, key, iv, old(position), old(x[offset..offset + length]))
                       + old(x[offset + length..])
    {
      ghost var before := x[..];
      ghost var start := position;
      var i := offset;
      while i < offset + length
        invariant Valid()
        invariant offset <= i <= offset + length
        invariant position == start + (i - offset)
        invariant forall k :: 0 <= k < offset || i <= k < x.Length ==> x[k] == before[k]
        invariant forall k :: offset <= k < i ==> x[k] == before[k] ^ KeystreamByte(aes, key, iv, start + (k - offset))
      {
        XorNext(x, i);
        i := i + 1;
      }
      ApplyInRange(aes, key, iv, start, before, x[..], offset, length);
    }

    /** One step of the `processBuffer` loop: `x[i] ^= nextGamma()`. */
    method XorNext(x: array<bv8>, i: nat)
      requires Valid() && x !in Repr && i < x.Length
      modifies this`gammaPos, this`position, counter, gamma, x
      ensures Valid() && position == old(position) + 1
      ensures x[..] == old(x[..])[i := old(x[i]) ^ KeystreamByte(aes, key, iv, old(position))]
    {
      var g := NextGamma();
      x[i] := x[i] ^ g;
    }

    /** `processBuffer(x)`: the whole array. */
    method ProcessArray(x: array<bv8>)
      requires Valid() && x !in Repr
      modifies this`gammaPos, this`position, counter, gamma, x
      ensures Valid() && position == old(position) + x.Length
      ensures x[..] == Apply(aes, key, iv, old(position), old(x[..]))
    {
      ProcessArrayRange(x, 0, x.Length);
      assert old(x[..0]) == [] && old(x[x.Length..]) == [];
      assert old(x[0..x.Length]) == old(x[..]);
    }

    /** `processBuffer(buf, offset, length)`: the same over the storage of a
        `ByteBuf`, by absolute index; the buffer's indices do not move. */
    method ProcessByteBufRange(buf: Buffers.ByteBuf, offset: nat, length: nat)
      requires Valid() && buf.data !in Repr
      requires offset + length <= buf.data.Length
      modifies this`gammaPos, this`position, counter, gamma, buf.data
      ensures Valid() && position == old(position) + length
      ensures buf.data[..] == old(buf.data[..offset]) + Apply(aes, key, iv, old(position), old(buf.data[offset..offset + length]))
                              + old(buf.data[offset + length..])
    {
      ProcessArrayRange(buf.data, offset, length);
    }

    /** `processBuffer(buf)`: the readable region of a `ByteBuf`; the cipher
        advances by exactly `readableBytes()`. */
    method ProcessByteBuf(buf: Buffers.ByteBuf)
      requires Valid() && buf.Valid() && buf.data !in Repr
      modifies this`gammaPos, this`position, counter, gamma, buf.data
      ensures Valid() && position == old(position) + old(buf.ReadableCount())
      ensures buf.data[..] == old(buf.data[..buf.readerIndex])
                              + Apply(aes, key, iv, old(position), old(buf.Readable()))
                              + old(buf.data[buf.writerIndex..])
    {
      ProcessArrayRange(buf.data, buf.readerIndex, buf.ReadableCount());
    }
  }

  /** Two valid ciphers with the same block function, key and IV that have
      consumed the same number of keystream bytes are in the same state: this is
      why `skipGamma(n)` and `processBuffer` over `n` bytes are interchangeable. */
  lemma SameState(a: AESCTR, b: AESCTR)
    requires a.Valid() && b.Valid()
    requires a.aes == b.aes && a.key == b.key && a.iv == b.iv && a.position == b.position
    ensures a.counter[..] == b.counter[..] && a.gamma[..] == b.gamma[..] && a.gammaPos == b.gammaPos
  {
  }

  /** The constructor with its IV check: any IV that is not 16 bytes long is an
      IllegalArgumentException. */
  method Create(aes: BlockCipher, key: Bytes, iv: Bytes) returns (r: Result<AESCTR>)
    ensures r.Err? <==> |iv| != 16
    ensures r.Err? ==> r.error == IllegalArgument
    ensures r.Ok? ==> var c := r.value;
      && c.Valid() && fresh(c.Repr) && c.aes == aes && c.key == key && c.iv == iv && c.position == 0
  {
    if |iv| != 16 {
      return Err(IllegalArgument);
    }
    var c := new AESCTR(aes, key, iv);
    return Ok(c);
  }

  /** The key `fromKeyAndSecret` ends up using: SHA-256 of key followed by secret
      when there is a secret, the key itself otherwise. */
  function EffectiveKey(sha: Sha256, key: Bytes, secret: Option<Bytes>): Bytes
  {
    match secret
    case None => key
    case Some(s) => if |key| >= 32 then sha(key + s) + key[32..] else key
  }

  /** `fromKeyAndSecret(key, iv, secret)`: with a secret, the caller's key array
      is first overwritten in place with SHA-256(key || secret) (a key shorter
      than the digest makes `digest` throw, reported as a RuntimeException); then
      the cipher is built from the array's contents. */
  method FromKeyAndSecret(aes: BlockCipher, sha: Sha256, key: array<bv8>, iv: Bytes, secret: Option<Bytes>)
    returns (r: Result<AESCTR>)
    modifies key
    ensures secret.Some? && key.Length < 32 ==> r == Err(Runtime) && key[..] == old(key[..])
    ensures secret.Some? && key.Length >= 32 ==> key[..] == sha(old(key[..]) + secret.value) + old(key[32..])
    ensures secret.None? ==> key[..] == old(key[..])
    ensures !(secret.Some? && key.Length < 32) ==> (r.Err? <==> |iv| != 16)
    ensures r.Ok? ==> var c := r.value;
      && c.Valid() && fresh(c.Repr) && c.aes == aes && c.iv == iv && c.position == 0
      && c.key == key[..] == EffectiveKey(sha, old(key[..]), secret)
  {
    if secret.Some? {
      if key.Length < 32 {
        return Err(Runtime);
      }
      var digest := sha(key[..] + secret.value);
      forall k | 0 <= k < 32 {
        key[k] := digest[k];
      }
      assert key[..] == digest + old(key[32..]);
    }
    r := Create(aes, key[..], iv);
  }
}
