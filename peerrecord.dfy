/** Upstream peer descriptors (PeerRecord.java) and the hexBinary conversions
    they rely on (`DatatypeConverter.parseHexBinary` / `printHexBinary`, the
    hexBinary type of XML Schema Part 2, section 3.2.15). A peer is read from an
    already-decomposed URI. */
module Peers {
  import opened Common
  import Utils
  import Buffers

  // ---------------------------------------------------------------------------
  // hexBinary
  // ---------------------------------------------------------------------------

  /** The value of one hexadecimal digit, either case. */
  function HexValue(c: char): (r: Option<nat>)
    ensures r.Some? ==> r.value < 16
    ensures r.Some? <==> ('0' <= c <= '9' || 'a' <= c <= 'f' || 'A' <= c <= 'F')
  {
    if '0' <= c <= '9' then Some(c as int - '0' as int)
    else if 'a' <= c <= 'f' then Some(c as int - 'a' as int + 10)
    else if 'A' <= c <= 'F' then Some(c as int - 'A' as int + 10)
    else None
  }

  predicate IsHexDigit(c: char)
  {
    HexValue(c).Some?
  }

  /** The digit `printHexBinary` writes for `n`: upper case. */
  function HexChar(n: nat): (c: char)
    requires n < 16
    ensures HexValue(c) == Some(n)
    ensures !('a' <= c <= 'f')
  {
    if n < 10 then ('0' as int + n) as char else ('A' as int + n - 10) as char
  }

  /** The byte a pair of digits denotes, high nibble first. */
  function PairByte(hi: nat, lo: nat): (b: bv8)
    requires hi < 16 && lo < 16
    ensures b as int == hi * 16 + lo
  {
    Buffers.ByteConversion(hi * 16 + lo);
    (hi * 16 + lo) as bv8
  }

  /** The digit pairs of an even-length text, left to right; the first character
      that is not a digit fails the whole conversion. */
  function ParsePairs(s: string): (r: Result<Bytes>)
    requires |s| % 2 == 0
    ensures r.Ok? ==> |r.value| == |s| / 2
    decreases |s|
  {
    if s == [] then Ok([])
    else match (HexValue(s[0]), HexValue(s[1]))
      case (Some(hi), Some(lo)) =>
        (match ParsePairs(s[2..])
         case Ok(rest) => Ok([PairByte(hi, lo)] + rest)
         case Err(e) => Err(e))
      case _ => Err(IllegalArgument)
  }

  /** `DatatypeConverter.parseHexBinary(s)`: an odd length or a non-digit is an
      `IllegalArgumentException`. */
  function ParseHexBinary(s: string): (r: Result<Bytes>)
    ensures r.Ok? ==> |r.value| == |s| / 2
  {
    if |s| % 2 != 0 then Err(IllegalArgument) else ParsePairs(s)
  }

  /** `DatatypeConverter.printHexBinary(b)`: two upper-case digits per byte. */
  function PrintHexBinary(b: Bytes): (s: string)
    ensures |s| == 2 * |b|
  {
    if b == [] then "" else [HexChar(b[0] as int / 16), HexChar(b[0] as int % 16)] + PrintHexBinary(b[1..])
  }

  /** Conversion succeeds exactly on even-length texts made only of digits. */
  lemma {:induction false} ParseHexBinaryAccepts(s: string)
    ensures ParseHexBinary(s).Ok? <==> |s| % 2 == 0 && forall i :: 0 <= i < |s| ==> IsHexDigit(s[i])
  {
    if |s| % 2 == 0 && s != [] {
      ParseHexBinaryAccepts(s[2..]);
      assert forall i :: 2 <= i < |s| ==> s[i] == s[2..][i - 2];
      if HexValue(s[0]).Some? && HexValue(s[1]).Some? {
        assert (forall i :: 0 <= i < |s| ==> IsHexDigit(s[i])) <==> (forall i :: 0 <= i < |s[2..]| ==> IsHexDigit(s[2..][i]));
      }
    }
  }

  /** Byte `i` of a successful conversion is the pair of digits at `2 * i`. */
  lemma {:induction false} ParseHexBinaryAt(s: string, i: nat)
    requires ParseHexBinary(s).Ok? && i < |s| / 2
    ensures IsHexDigit(s[2 * i]) && IsHexDigit(s[2 * i + 1])
    ensures ParseHexBinary(s).value[i] as int == HexValue(s[2 * i]).value * 16 + HexValue(s[2 * i + 1]).value
  {
    ParseHexBinaryAccepts(s);
    if i > 0 {
      ParseHexBinaryAccepts(s[2..]);
      ParseHexBinaryAt(s[2..], i - 1);
    }
  }

  /** Printing and parsing back gives the original bytes. */
  lemma {:induction false} HexRoundTrip(b: Bytes)
    ensures ParseHexBinary(PrintHexBinary(b)) == Ok(b)
  {
    if b != [] {
      var n := b[0] as int;
      var s := PrintHexBinary(b);
      assert s == [HexChar(n / 16), HexChar(n % 16)] + PrintHexBinary(b[1..]);
      assert s[2..] == PrintHexBinary(b[1..]);
      HexRoundTrip(b[1..]);
      DigitPair(b[0]);
      assert b == [b[0]] + b[1..];
    }
  }

  /** A byte is the pair of its two printed digits. */
  lemma DigitPair(x: bv8)
    ensures PairByte(x as int / 16, x as int % 16) == x
  {
    assert PairByte(x as int / 16, x as int % 16) as int == x as int;
  }

  // ---------------------------------------------------------------------------
  // PeerRecord
  // ---------------------------------------------------------------------------

  /** The parts of a `java.net.URI` the peer constructor consults; `getPort()`
      is -1 when the URI names no port, and the other parts may be absent. */
  datatype Uri = Uri(scheme: Option<string>, host: Option<string>, port: int, path: Option<string>)

  /** A peer: where to connect and, for a proxy, the secret its handshakes use. */
  datatype PeerRecord = PeerRecord(address: Utils.Address, secret: Option<Bytes>)

  /** The port a peer URI without one gets. */
  const DEFAULT_PORT: int := 443

  /** `new PeerRecord(uri)`. The address is built first, so a missing host or a
      port out of range fails before the scheme is looked at; then "direct"
      demands an empty path and has no secret, "proxy" demands a path and takes
      the secret from the hex digits after its leading '/', and any other scheme
      is rejected. A missing scheme or path makes the `switch` or `isEmpty`
      dereference null. */
  function FromUri(u: Uri): (r: Result<PeerRecord>)
    ensures r.Ok? ==> r.value.address.port == (if u.port == -1 then DEFAULT_PORT else u.port)
    ensures r.Ok? ==> u.host == Some(r.value.address.host)
    ensures r.Ok? && r.value.secret.None? <==> r.Ok? && u.scheme == Some("direct")
    ensures r.Ok? && u.scheme == Some("direct") ==> u.path == Some("")
    ensures r.Ok? && u.scheme == Some("proxy") ==>
              u.path.Some? && u.path.value != "" && r.value.secret.Some?
              && ParseHexBinary(u.path.value[1..]) == Ok(r.value.secret.value)
    ensures (&& u.host.Some? && Utils.ValidPort(if u.port == -1 then DEFAULT_PORT else u.port)
             && u.scheme.Some? && u.scheme.value !in {"direct", "proxy"})
            ==> r == Err(IllegalArgument)
  {
    var port := if u.port == -1 then DEFAULT_PORT else u.port;
    match u.host
    case None => Err(IllegalArgument)
    case Some(host) =>
      match Utils.SocketAddress(host, port)
      case Err(e) => Err(e)
      case Ok(address) =>
        match u.scheme
        case None => Err(NullPointer)
        case Some(scheme) =>
          if scheme == "direct" then
            match u.path
            case None => Err(NullPointer)
            case Some(path) => if path != "" then Err(IllegalArgument) else Ok(PeerRecord(address, None))
          else if scheme == "proxy" then
            match u.path
            case None => Err(NullPointer)
            case Some(path) =>
              if path == "" then Err(IllegalArgument)
              else match ParseHexBinary(path[1..])
                case Err(e) => Err(e)
                case Ok(secret) => Ok(PeerRecord(address, Some(secret)))
          else Err(IllegalArgument)
  }

  /** The URI that describes a peer: `direct://host:port` or
      `proxy://host:port/<hex secret>`. */
  function UriOf(p: PeerRecord): (u: Uri)
  {
    match p.secret
    case None => Uri(Some("direct"), Some(p.address.host), p.address.port, Some(""))
    case Some(s) => Uri(Some("proxy"), Some(p.address.host), p.address.port, Some("/" + PrintHexBinary(s)))
  }

  /** Every peer with a valid port is read back from its own URI. */
  lemma UriRoundTrip(p: PeerRecord)
    requires Utils.ValidPort(p.address.port)
    ensures FromUri(UriOf(p)) == Ok(p)
  {
    if p.secret.Some? {
      var path := "/" + PrintHexBinary(p.secret.value);
      assert path[1..] == PrintHexBinary(p.secret.value);
      HexRoundTrip(p.secret.value);
    }
  }

  /** The address as the log line shows it. */
  function AddressString(a: Utils.Address): string
  {
    Utils.AddressText(a)
  }

  /** `toString()`: a description starts with "proxy " exactly when the peer
      has a secret, and with "direct " otherwise; a proxy's secret can be read
      back from the hex digits at its end. */
  function ToString(p: PeerRecord): (s: string)
    ensures |s| >= 7
    ensures p.secret.Some? <==> s[..6] == "proxy "
    ensures p.secret.None? <==> s[..7] == "direct "
    ensures p.secret.Some? ==> |s| >= 6 + 2 * |p.secret.value|
    ensures p.secret.Some? ==> ParseHexBinary(s[|s| - 2 * |p.secret.value|..]) == Ok(p.secret.value)
  {
    match p.secret
    case Some(secret) =>
      var hex := PrintHexBinary(secret);
      var s := "proxy " + AddressString(p.address) + ", secret " + hex;
      assert s[|s| - |hex|..] == hex;
      HexRoundTrip(secret);
      assert s[..6] == "proxy ";
      assert s[0] == 'p' && "direct "[0] == 'd';
      s
    case None =>
      var s := "direct " + AddressString(p.address);
      assert s[..7] == "direct ";
      assert s[0] == 'd' && "proxy "[0] == 'p';
      s
  }
}
