/** Byte helpers and host:port parsing (Utils.java): little-endian words, in-place
    reversal, and the two `parseAddress` overloads with the decimal parsing of
    `Integer.parseInt` they rely on. */
module Utils {
  import opened Common

  // ---------------------------------------------------------------------------
  // Little-endian 32-bit words
  // ---------------------------------------------------------------------------

  /** `littleEndianToInt(buf, idx)`: the word whose least significant byte is
      `buf[idx]`, as the bit pattern of a Java int. */
  function LittleEndianToInt(buf: Bytes, idx: nat): (r: bv32)
    requires idx + 4 <= |buf|
    ensures LittleEndianBytes(r) == buf[idx..idx + 4]
  {
    (buf[idx + 3] as bv32 << 24) | (buf[idx + 2] as bv32 << 16) | (buf[idx + 1] as bv32 << 8) | buf[idx] as bv32
  }

  /** The four bytes `intToLittleEndian` stores, least significant first. */
  function LittleEndianBytes(i: bv32): (r: Bytes)
    ensures |r| == 4
  {
    [(i & 0xFF) as bv8, ((i >> 8) & 0xFF) as bv8, ((i >> 16) & 0xFF) as bv8, (i >> 24) as bv8]
  }

  /** Reading back what was written gives the written int ... */
  lemma LittleEndianRoundTrip(i: bv32, buf: Bytes, idx: nat)
    requires idx + 4 <= |buf| && buf[idx..idx + 4] == LittleEndianBytes(i)
    ensures LittleEndianToInt(buf, idx) == i
  {
    assert buf[idx] == LittleEndianBytes(i)[0] && buf[idx + 1] == LittleEndianBytes(i)[1];
    assert buf[idx + 2] == LittleEndianBytes(i)[2] && buf[idx + 3] == LittleEndianBytes(i)[3];
  }

  /** Distinct ints have distinct byte images, so a word comparison is a
      comparison of the four bytes. */
  lemma LittleEndianInjective(i: bv32, j: bv32)
    ensures LittleEndianBytes(i) == LittleEndianBytes(j) <==> i == j
  {
    if LittleEndianBytes(i) == LittleEndianBytes(j) {
      LittleEndianRoundTrip(i, LittleEndianBytes(i), 0);
      LittleEndianRoundTrip(j, LittleEndianBytes(j), 0);
    }
  }

  /** `intToLittleEndian(i, buf, idx)`: stores the four bytes of `i` at
      `buf[idx..idx+4)`, least significant at `idx`, and touches nothing else. */
  method IntToLittleEndian(i: bv32, buf: array<bv8>, idx: nat)
    requires idx + 4 <= buf.Length
    modifies buf
    ensures buf[..] == old(buf[..idx]) + LittleEndianBytes(i) + old(buf[idx + 4..])
    ensures LittleEndianToInt(buf[..], idx) == i
  {
    buf[idx + 3] := (i >> 24) as bv8;
    buf[idx + 2] := ((i >> 16) & 0xFF) as bv8;
    buf[idx + 1] := ((i >> 8) & 0xFF) as bv8;
    buf[idx] := (i & 0xFF) as bv8;
    assert buf[..] == old(buf[..idx]) + LittleEndianBytes(i) + old(buf[idx + 4..]);
    LittleEndianRoundTrip(i, buf[..], idx);
  }

  // ---------------------------------------------------------------------------
  // In-place reversal
  // ---------------------------------------------------------------------------

  /** `s` read back to front. */
  function Reversed(s: Bytes): (r: Bytes)
    ensures |r| == |s|
  {
    if s == [] then [] else Reversed(s[1..]) + [s[0]]
  }

  lemma {:induction false} ReversedAt(s: Bytes, k: nat)
    requires k < |s|
    ensures Reversed(s)[k] == s[|s| - 1 - k]
  {
    if k < |s| - 1 {
      ReversedAt(s[1..], k);
    }
  }

  /** Reversing twice is the identity. */
  lemma ReversedTwice(s: Bytes)
    ensures Reversed(Reversed(s)) == s
  {
    forall k | 0 <= k < |s| ensures Reversed(Reversed(s))[k] == s[k] {
      ReversedAt(Reversed(s), k);
      ReversedAt(s, |s| - 1 - k);
    }
  }

  /** Reversing a concatenation reverses the order of the parts. */
  lemma ReversedAppend(a: Bytes, b: Bytes)
    ensures Reversed(a + b) == Reversed(b) + Reversed(a)
  {
    var r := Reversed(a + b);
    forall k | 0 <= k < |a| + |b| ensures r[k] == (Reversed(b) + Reversed(a))[k] {
      ReversedAt(a + b, k);
      if k < |b| {
        ReversedAt(b, k);
      } else {
        ReversedAt(a, k - |b|);
      }
    }
  }

  /** `reverse(x)`: swaps from both ends toward the middle, so that afterwards
      `x[i]` holds what `x[len-1-i]` held. */
  method Reverse(x: array<bv8>)
    modifies x
    ensures x[..] == Reversed(old(x[..]))
  {
    var n := x.Length;
    var i := 0;
    while i < n / 2
      invariant 0 <= i <= n / 2
      invariant forall k :: 0 <= k < i ==> x[k] == old(x[n - 1 - k]) && x[n - 1 - k] == old(x[k])
      invariant forall k :: i <= k < n - i ==> x[k] == old(x[k])
    {
      var temp := x[i];
      x[i] := x[n - i - 1];
      x[n - i - 1] := temp;
      i := i + 1;
    }
    ghost var was := old(x[..]);
    forall k | 0 <= k < n ensures x[..][k] == Reversed(was)[k] {
      ReversedAt(was, k);
    }
  }

  // ---------------------------------------------------------------------------
  // Integer.parseInt and its inverse, Integer.toString
  // ---------------------------------------------------------------------------

  const INT_MIN: int := -0x8000_0000
  const INT_MAX: int := 0x7FFF_FFFF

  predicate IsDigit(c: char)
  {
    '0' <= c <= '9'
  }

  predicate AllDigits(s: string)
  {
    forall i :: 0 <= i < |s| ==> IsDigit(s[i])
  }

  function DigitChar(d: nat): (c: char)
    requires d < 10
    ensures IsDigit(c)
  {
    ('0' as int + d) as char
  }

  /** Value of a string of decimal digits, most significant first. */
  function DigitsValue(s: string): nat
    requires AllDigits(s)
  {
    if s == [] then 0
    else
      assert IsDigit(s[|s| - 1]);
      DigitsValue(s[..|s| - 1]) * 10 + (s[|s| - 1] as int - '0' as int)
  }

  /** `Integer.parseInt(s)`: an optional sign followed by at least one decimal
      digit, whose value fits a Java int; anything else is a NumberFormatException. */
  function ParseInt(s: string): (r: Option<Int32>)
    ensures r.Some? ==> |s| > 0
    ensures r.Some? && s[0] == '-' ==> r.value <= 0
    ensures r.Some? && s[0] != '-' ==> r.value >= 0
  {
    if |s| == 0 then None
    else
      var negative := s[0] == '-';
      var digits := if s[0] == '-' || s[0] == '+' then s[1..] else s;
      if |digits| == 0 || !AllDigits(digits) then None
      else
        var v: int := if negative then -(DigitsValue(digits) as int) else DigitsValue(digits);
        if INT_MIN <= v <= INT_MAX then Some(v) else None
  }

  /** Decimal digits of a natural number, without leading zeros. */
  function NatDigits(n: nat): (s: string)
    ensures |s| > 0 && AllDigits(s)
  {
    if n < 10 then [DigitChar(n)] else NatDigits(n / 10) + [DigitChar(n % 10)]
  }

  /** `Integer.toString(n)`. */
  function IntToString(n: int): (s: string)
  {
    if n < 0 then "-" + NatDigits(-n) else NatDigits(n)
  }

  lemma {:induction false} NatDigitsValue(n: nat)
    ensures DigitsValue(NatDigits(n)) == n
  {
    if n >= 10 {
      NatDigitsValue(n / 10);
      var s := NatDigits(n);
      assert s[..|s| - 1] == NatDigits(n / 10);
    }
  }

  /** `parseInt` reads back every Java int that `toString` prints. */
  lemma ParseIntToString(n: Int32)
    ensures ParseInt(IntToString(n)) == Some(n)
  {
    var s := IntToString(n);
    if n < 0 {
      var m: nat := -(n as int);
      var d := NatDigits(m);
      NatDigitsValue(m);
      assert s == "-" + d && s[0] == '-' && s[1..] == d;
      assert ParseInt(s) == Some(-(DigitsValue(d) as int));
    } else {
      var d := NatDigits(n);
      NatDigitsValue(n);
      assert s == d && IsDigit(s[0]);
      assert ParseInt(s) == Some(DigitsValue(d));
    }
  }

  // ---------------------------------------------------------------------------
  // parseAddress
  // ---------------------------------------------------------------------------

  /** An `InetSocketAddress` as created from a host name and a port (resolution
      is not modelled). */
  datatype Address = Address(host: string, port: int)

  predicate ValidPort(p: int)
  {
    0 <= p <= 0xFFFF
  }

  /** Index of the first ':' in `s`, if any. */
  function FirstColon(s: string): (r: Option<nat>)
    ensures r.None? <==> ':' !in s
    ensures r.Some? ==> r.value < |s| && s[r.value] == ':' && ':' !in s[..r.value]
  {
    if s == [] then None
    else if s[0] == ':' then Some(0)
    else match FirstColon(s[1..])
      case None => None
      case Some(i) =>
        assert s[1..][..i] == s[1..i + 1];
        assert s[..i + 1] == [s[0]] + s[1..][..i];
        Some(i + 1)
  }

  /** `s.split(":", 2)`: the text before the first ':' and, when there is one,
      everything after it (further colons included). */
  function SplitFirstColon(s: string): (parts: (string, Option<string>))
  {
    match FirstColon(s)
    case None => (s, None)
    case Some(i) => (s[..i], Some(s[i + 1..]))
  }

  /** `new InetSocketAddress(host, port)`: rejects a port outside 0..65535. */
  function SocketAddress(host: string, port: int): (r: Result<Address>)
    ensures r.Ok? <==> ValidPort(port)
    ensures r.Ok? ==> r.value == Address(host, port)
  {
    if ValidPort(port) then Ok(Address(host, port)) else Err(IllegalArgument)
  }

  /** The port half of `host:port`. */
  function ParsePort(host: string, text: string): Result<Address>
  {
    match ParseInt(text)
    case None => Err(NumberFormat)
    case Some(p) => SocketAddress(host, p)
  }

  /** `parseAddress(s)`: a ':' is mandatory (its absence makes `parts[1]` throw),
      the host is everything before the first ':' and the port is parsed from
      the rest. */
  function ParseAddress(s: string): (r: Result<Address>)
    ensures ':' !in s ==> r == Err(ArrayIndexOutOfBounds)
    ensures r.Ok? ==>
      var h := |r.value.host|;
      && h < |s| && s[..h] == r.value.host && s[h] == ':' && ':' !in r.value.host
      && ParseInt(s[h + 1..]) == Some(r.value.port) && ValidPort(r.value.port)
  {
    match SplitFirstColon(s)
    case (_, None) => Err(ArrayIndexOutOfBounds)
    case (host, Some(rest)) => ParsePort(host, rest)
  }

  /** `parseAddress(s, defaultPort)`: as `parseAddress(s)`, except that a string
      without ':' is a host name using `defaultPort`. */
  function ParseAddressWithDefault(s: string, defaultPort: Int32): (r: Result<Address>)
    ensures ':' !in s ==> r == SocketAddress(s, defaultPort)
    ensures ':' in s ==> r == ParseAddress(s)
  {
    match SplitFirstColon(s)
    case (host, None) => SocketAddress(host, defaultPort)
    case (host, Some(rest)) => ParsePort(host, rest)
  }

  /** `host:port` as the address would be written in a configuration file. */
  function AddressText(a: Address): string
  {
    a.host + ":" + IntToString(a.port)
  }

  /** Parsing inverts writing, for every host without ':' and every valid port. */
  lemma ParseAddressText(a: Address)
    requires ':' !in a.host && ValidPort(a.port)
    ensures ParseAddress(AddressText(a)) == Ok(a)
  {
    var s := AddressText(a);
    var h := |a.host|;
    assert s[..h] == a.host && s[h] == ':';
    assert ':' !in s[..h];
    assert FirstColon(s) == Some(h);
    assert s[h + 1..] == IntToString(a.port);
    ParseIntToString(a.port);
  }
}
