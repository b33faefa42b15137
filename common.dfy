/** Vocabulary shared by every part of the model: optional values, results that
    carry the Java exception a failing operation throws, bytes and byte-wise XOR. */
module Common {

  datatype Option<T> = None | Some(value: T)

  /** The Java exceptions the modelled code throws or lets escape. */
  datatype Exception =
    | IllegalArgument
    | NumberFormat
    | ArrayIndexOutOfBounds
    | IndexOutOfBounds
    | IllegalState
    | Arithmetic
    | NullPointer
    | Runtime

  datatype Result<T> = Ok(value: T) | Err(error: Exception)

  type Byte = bv8
  type Bytes = seq<bv8>

  /** A Java `int`. */
  type Int32 = x: int | -0x8000_0000 <= x < 0x8000_0000

  /** A Java `long`. */
  type Int64 = x: int | -0x8000_0000_0000_0000 <= x < 0x8000_0000_0000_0000

  /** A fixed-length block, as AES consumes and produces. */
  type Block = s: Bytes | |s| == 16 witness [0, 0, 0, 0, 0, 0, 0, 0, 0, 0, 0, 0, 0, 0, 0, 0]

  /** Byte-wise exclusive or of two equally long byte strings. */
  function Xor(a: Bytes, b: Bytes): (r: Bytes)
    requires |a| == |b|
    ensures |r| == |a|
  {
    if a == [] then [] else Xor(a[..|a| - 1], b[..|b| - 1]) + [a[|a| - 1] ^ b[|b| - 1]]
  }

  /** Byte `i` of the result is the XOR of the two bytes at `i`. */
  lemma {:induction false} XorAt(a: Bytes, b: Bytes, i: nat)
    requires |a| == |b| && i < |a|
    ensures Xor(a, b)[i] == a[i] ^ b[i]
  {
    if i < |a| - 1 {
      XorAt(a[..|a| - 1], b[..|b| - 1], i);
    }
  }

  /** XOR with the same pad twice is the identity: this is why one keystream both
      encrypts and decrypts. */
  lemma XorTwice(a: Bytes, pad: Bytes)
    requires |a| == |pad|
    ensures Xor(Xor(a, pad), pad) == a
  {
    var once := Xor(a, pad);
    var r := Xor(once, pad);
    forall i | 0 <= i < |a| ensures r[i] == a[i] {
      XorAt(a, pad, i);
      XorAt(once, pad, i);
      assert r[i] == (a[i] ^ pad[i]) ^ pad[i];
    }
  }

  /** XOR distributes over concatenation. */
  lemma XorAppend(a: Bytes, b: Bytes, p: Bytes, q: Bytes)
    requires |a| == |p| && |b| == |q|
    ensures Xor(a + b, p + q) == Xor(a, p) + Xor(b, q)
  {
    var whole := Xor(a + b, p + q);
    var parts := Xor(a, p) + Xor(b, q);
    forall i | 0 <= i < |a| + |b| ensures whole[i] == parts[i] {
      XorAt(a + b, p + q, i);
      if i < |a| {
        XorAt(a, p, i);
      } else {
        XorAt(b, q, i - |a|);
      }
    }
  }
}
