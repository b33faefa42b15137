/** Loading and validating the proxy settings (Configuration.java). The
    configuration library's lookups are taken as already done: a `Source`
    holds the value found at each path, or `None` where the path is absent.
    `java.net.URI` parsing and MD5 are parameters. */
module Config {
  import opened Common
  import Utils
  import Peers

  /** An MD5 digest (RFC 1321), sixteen bytes. */
  type Digest16 = s: Bytes | |s| == 16 witness [0, 0, 0, 0, 0, 0, 0, 0, 0, 0, 0, 0, 0, 0, 0, 0]

  /** The MD5 function, supplied from outside the model. */
  type Md5 = Bytes -> Digest16

  /** `new URI(s)`: the decomposed URI, or `None` for a `URISyntaxException`. */
  type UriParser = string -> Option<Peers.Uri>

  /** The values under the `mtoxy` section of the configuration. */
  datatype Source = Source(
    secret: Option<string>,
    passphrase: Option<string>,
    peers: seq<string>,
    listenAddresses: seq<string>,
    httpBackend: Option<string>,
    bossThreads: Int32,
    workerThreads: Int32,
    statisticsReportInterval: Int64)

  /** The loaded settings: what the fields of a configuration hold after a
      successful `initValues`. */
  datatype Settings = Settings(
    secretKey: Bytes,
    peers: seq<Peers.PeerRecord>,
    listenAddresses: seq<Utils.Address>,
    httpBackend: Option<Utils.Address>,
    bossThreads: Int32,
    workerThreads: Int32,
    statisticsReportInterval: Int64)

  // ---------------------------------------------------------------------------
  // UTF-8
  // ---------------------------------------------------------------------------

  /** The UTF-8 encoding of one character. */
  function Utf8Char(c: char): (r: Bytes)
    ensures 1 <= |r| <= 4
    ensures c as int < 0x80 ==> r == [c as int as bv8]
  {
    var n := c as int;
    if n < 0x80 then [n as bv8]
    else if n < 0x800 then [(0xC0 + n / 0x40) as bv8, (0x80 + n % 0x40) as bv8]
    else if n < 0x1_0000 then [(0xE0 + n / 0x1000) as bv8, (0x80 + (n / 0x40) % 0x40) as bv8, (0x80 + n % 0x40) as bv8]
    else [(0xF0 + n / 0x4_0000) as bv8, (0x80 + (n / 0x1000) % 0x40) as bv8, (0x80 + (n / 0x40) % 0x40) as bv8,
          (0x80 + n % 0x40) as bv8]
  }

  /** `s.getBytes(StandardCharsets.UTF_8)`. */
  function Utf8(s: string): (r: Bytes)
    ensures |s| <= |r| <= 4 * |s|
  {
    if s == [] then [] else Utf8(s[..|s| - 1]) + Utf8Char(s[|s| - 1])
  }

  // ---------------------------------------------------------------------------
  // The rules of initValues, as functions
  // ---------------------------------------------------------------------------

  /** The secret key: exactly one of `secret` and `secret-passphrase` must be
      present; a `secret` must be hex digits for exactly sixteen bytes; a
      passphrase is replaced by the MD5 of its UTF-8 bytes. */
  function SecretKeyOf(src: Source, md5: Md5): (r: Result<Bytes>)
    ensures r.Err? ==> r.error == IllegalArgument
    ensures r.Ok? <==> (src.secret.Some? != src.passphrase.Some?)
                       && (src.secret.Some? ==> Peers.ParseHexBinary(src.secret.value).Ok?
                                                && |Peers.ParseHexBinary(src.secret.value).value| == 16)
    ensures r.Ok? && src.secret.Some? ==> Peers.ParseHexBinary(src.secret.value) == Ok(r.value) && |r.value| == 16
    ensures r.Ok? && src.passphrase.Some? ==> r.value == md5(Utf8(src.passphrase.value))
  {
    if src.secret.None? && src.passphrase.None? then Err(IllegalArgument)
    else if src.secret.Some? && src.passphrase.Some? then Err(IllegalArgument)
    else if src.secret.Some? then
      match Peers.ParseHexBinary(src.secret.value)
      case Err(_) => Err(IllegalArgument)
      case Ok(key) => if |key| != 16 then Err(IllegalArgument) else Ok(key)
    else Ok(md5(Utf8(src.passphrase.value)))
  }

  /** One `peers` entry: `new PeerRecord(new URI(s))`, where any failure becomes
      an `IllegalArgumentException`. */
  function ParsePeer(parseUri: UriParser, s: string): (r: Result<Peers.PeerRecord>)
    ensures r.Err? ==> r.error == IllegalArgument
    ensures r.Ok? <==> parseUri(s).Some? && Peers.FromUri(parseUri(s).value).Ok?
    ensures r.Ok? ==> r.value == Peers.FromUri(parseUri(s).value).value
  {
    match parseUri(s)
    case None => Err(IllegalArgument)
    case Some(u) =>
      match Peers.FromUri(u)
      case Err(_) => Err(IllegalArgument)
      case Ok(p) => Ok(p)
  }

  /** One `listen-addresses` entry, or the `http-backend` value: `parseAddress(s)`,
      where any failure becomes an `IllegalArgumentException`. */
  function ParseListenAddress(s: string): (r: Result<Utils.Address>)
    ensures r.Err? ==> r.error == IllegalArgument
    ensures r.Ok? <==> Utils.ParseAddress(s).Ok?
    ensures r.Ok? ==> r.value == Utils.ParseAddress(s).value
  {
    match Utils.ParseAddress(s)
    case Err(_) => Err(IllegalArgument)
    case Ok(a) => Ok(a)
  }

  /** A list converted entry by entry, in order; the first failure is the
      result. */
  function MapAll<T>(f: string -> Result<T>, ss: seq<string>): Result<seq<T>>
  {
    if ss == [] then Ok([])
    else match MapAll(f, ss[..|ss| - 1])
      case Err(e) => Err(e)
      case Ok(prefix) =>
        match f(ss[|ss| - 1])
        case Err(e) => Err(e)
        case Ok(x) => Ok(prefix + [x])
  }

  /** A list converts when every entry does, and then entry `i` of the result
      is the conversion of entry `i`. */
  lemma {:induction false} MapAllMeaning<T>(f: string -> Result<T>, ss: seq<string>)
    ensures MapAll(f, ss).Ok? <==> forall i :: 0 <= i < |ss| ==> f(ss[i]).Ok?
    ensures MapAll(f, ss).Ok? ==>
              |MapAll(f, ss).value| == |ss| && forall i :: 0 <= i < |ss| ==> MapAll(f, ss).value[i] == f(ss[i]).value
  {
    if ss != [] {
      var prefix := ss[..|ss| - 1];
      MapAllMeaning(f, prefix);
      assert forall i :: 0 <= i < |prefix| ==> prefix[i] == ss[i];
    }
  }

  /** A failure in a prefix is the failure of the whole list. */
  lemma {:induction false} MapAllPrefixErr<T>(f: string -> Result<T>, ss: seq<string>, k: nat)
    requires k <= |ss| && MapAll(f, ss[..k]).Err?
    ensures MapAll(f, ss) == MapAll(f, ss[..k])
    decreases |ss| - k
  {
    if k < |ss| {
      assert ss[..k + 1][..k] == ss[..k];
      MapAllPrefixErr(f, ss, k + 1);
    } else {
      assert ss[..k] == ss;
    }
  }

  /** The HTTP backend: absent when the path is absent, otherwise the parsed
      address. */
  function BackendOf(src: Source): (r: Result<Option<Utils.Address>>)
    ensures r.Err? ==> r.error == IllegalArgument
  {
    match src.httpBackend
    case None => Ok(None)
    case Some(s) =>
      match ParseListenAddress(s)
      case Err(e) => Err(e)
      case Ok(a) => Ok(Some(a))
  }

  /** What `initValues` makes of a source: the secret, then the peers, then the
      listen addresses, then the HTTP backend, then the plain numbers; the first
      failing step is the result. */
  function Loaded(src: Source, parseUri: UriParser, md5: Md5): (r: Result<Settings>)
  {
    match SecretKeyOf(src, md5)
    case Err(e) => Err(e)
    case Ok(key) =>
      match MapAll(s => ParsePeer(parseUri, s), src.peers)
      case Err(e) => Err(e)
      case Ok(peers) =>
        match MapAll(ParseListenAddress, src.listenAddresses)
        case Err(e) => Err(e)
        case Ok(listen) =>
          match BackendOf(src)
          case Err(e) => Err(e)
          case Ok(backend) =>
            Ok(Settings(key, peers, listen, backend, src.bossThreads, src.workerThreads, src.statisticsReportInterval))
  }

  /** The validation rules: loading succeeds exactly when one secret source is
      given and usable, every peer and listen address parses, and the backend,
      when present, parses. Every failure is an `IllegalArgumentException`. */
  lemma LoadedAccepts(src: Source, parseUri: UriParser, md5: Md5)
    ensures var r := Loaded(src, parseUri, md5);
            && (r.Err? ==> r.error == IllegalArgument)
            && (r.Ok? <==> && SecretKeyOf(src, md5).Ok?
                           && (forall i :: 0 <= i < |src.peers| ==> ParsePeer(parseUri, src.peers[i]).Ok?)
                           && (forall i :: 0 <= i < |src.listenAddresses| ==> ParseListenAddress(src.listenAddresses[i]).Ok?)
                           && (src.httpBackend.Some? ==> Utils.ParseAddress(src.httpBackend.value).Ok?))
  {
    MapAllMeaning(s => ParsePeer(parseUri, s), src.peers);
    MapAllMeaning(ParseListenAddress, src.listenAddresses);
    MapAllErrors(s => ParsePeer(parseUri, s), src.peers);
    MapAllErrors(ParseListenAddress, src.listenAddresses);
  }

  /** When every conversion failure is an `IllegalArgumentException`, so is the
      failure of the list. */
  lemma {:induction false} MapAllErrors<T>(f: string -> Result<T>, ss: seq<string>)
    requires forall s :: f(s).Err? ==> f(s).error == IllegalArgument
    ensures MapAll(f, ss).Err? ==> MapAll(f, ss).error == IllegalArgument
  {
    if ss != [] {
      MapAllErrors(f, ss[..|ss| - 1]);
    }
  }

  /** The loaded settings keep the configured order: peer `i` and listen
      address `i` come from entry `i`, and the backend is present exactly when
      the `http-backend` path is. */
  lemma LoadedContents(src: Source, parseUri: UriParser, md5: Md5)
    requires Loaded(src, parseUri, md5).Ok?
    ensures var v := Loaded(src, parseUri, md5).value;
            && v.secretKey == SecretKeyOf(src, md5).value
            && |v.peers| == |src.peers|
            && (forall i :: 0 <= i < |src.peers| ==> Ok(v.peers[i]) == ParsePeer(parseUri, src.peers[i]))
            && |v.listenAddresses| == |src.listenAddresses|
            && (forall i :: 0 <= i < |src.listenAddresses| ==>
                  Ok(v.listenAddresses[i]) == ParseListenAddress(src.listenAddresses[i]))
            && (v.httpBackend.Some? <==> src.httpBackend.Some?)
            && (v.httpBackend.Some? ==> Utils.ParseAddress(src.httpBackend.value) == Ok(v.httpBackend.value))
  {
    MapAllMeaning(s => ParsePeer(parseUri, s), src.peers);
    MapAllMeaning(ParseListenAddress, src.listenAddresses);
  }

  // ---------------------------------------------------------------------------
  // The configuration object
  // ---------------------------------------------------------------------------

  /** `for (String s: list) result.add(convert(s))`: stops at the first entry
      that fails. */
  method ParseAll<T>(f: string -> Result<T>, ss: seq<string>) returns (r: Result<seq<T>>)
    ensures r == MapAll(f, ss)
  {
    var list: seq<T> := [];
    var i := 0;
    while i < |ss|
      invariant 0 <= i <= |ss|
      invariant MapAll(f, ss[..i]) == Ok(list)
    {
      assert ss[..i + 1][..i] == ss[..i];
      match f(ss[i])
      case Err(e) =>
        MapAllPrefixErr(f, ss, i + 1);
        return Err(e);
      case Ok(x) =>
        list := list + [x];
      i := i + 1;
    }
    assert ss[..i] == ss;
    return Ok(list);
  }

  class Configuration {
    var secretKey: Bytes
    var peers: seq<Peers.PeerRecord>
    var listenAddresses: seq<Utils.Address>
    var httpBackend: Option<Utils.Address>
    var bossThreads: Int32
    var workerThreads: Int32
    var statisticsReportInterval: Int64

    /** The fields as one value. */
    function Values(): (v: Settings)
      reads this
    {
      Settings(secretKey, peers, listenAddresses, httpBackend, bossThreads, workerThreads, statisticsReportInterval)
    }

    /** An object whose fields `initValues` has not yet set. */
    constructor ()
      ensures httpBackend.None? && peers == [] && listenAddresses == [] && secretKey == []
    {
      secretKey, peers, listenAddresses, httpBackend := [], [], [], None;
      bossThreads, workerThreads, statisticsReportInterval := 0, 0, 0;
    }

    /** `initValues()`: the secret, then the two lists, then the backend and
        the numbers, each assigned to its field in turn; the first rule broken
        ends the load with an `IllegalArgumentException` (`failure`). */
    method InitValues(src: Source, parseUri: UriParser, md5: Md5) returns (failure: Option<Exception>)
      modifies this
      ensures failure.None? <==> Loaded(src, parseUri, md5).Ok?
      ensures failure.Some? ==> failure == Some(IllegalArgument)
      ensures failure.None? ==> Values() == Loaded(src, parseUri, md5).value
      ensures failure.None? ==> (HasHttpBackend() <==> src.httpBackend.Some?)
    {
      LoadedAccepts(src, parseUri, md5);
      var hasSecret := src.secret.Some?;
      var hasPassphrase := src.passphrase.Some?;
      if !hasSecret && !hasPassphrase {
        return Some(IllegalArgument);
      }
      if hasSecret && hasPassphrase {
        return Some(IllegalArgument);
      }
      if hasSecret {
        match Peers.ParseHexBinary(src.secret.value)
        case Err(_) =>
          return Some(IllegalArgument);
        case Ok(key) =>
          secretKey := key;
        if |secretKey| != 16 {
          return Some(IllegalArgument);
        }
      }
      if hasPassphrase {
        secretKey := md5(Utf8(src.passphrase.value));
      }

      var parsedPeers := ParseAll(s => ParsePeer(parseUri, s), src.peers);
      if parsedPeers.Err? {
        return Some(IllegalArgument);
      }
      peers := parsedPeers.value;

      var parsedListen := ParseAll(ParseListenAddress, src.listenAddresses);
      if parsedListen.Err? {
        return Some(IllegalArgument);
      }
      listenAddresses := parsedListen.value;

      if src.httpBackend.Some? {
        var backend := ParseListenAddress(src.httpBackend.value);
        if backend.Err? {
          return Some(IllegalArgument);
        }
        httpBackend := Some(backend.value);
      } else {
        httpBackend := None;
      }

      bossThreads := src.bossThreads;
      workerThreads := src.workerThreads;
      statisticsReportInterval := src.statisticsReportInterval;
      return None;
    }

    /** `hasHttpBackend()`: whether the loaded settings name a backend. */
    function HasHttpBackend(): (r: bool)
      reads this
      ensures r <==> Values().httpBackend.Some?
    {
      httpBackend.Some?
    }
  }

  /** `new Configuration(config)`: the object exists only when `initValues`
      succeeds. A loaded configuration has an HTTP backend exactly when the
      `http-backend` path is present. */
  method NewConfiguration(src: Source, parseUri: UriParser, md5: Md5) returns (r: Result<Configuration>)
    ensures r.Ok? <==> Loaded(src, parseUri, md5).Ok?
    ensures r.Err? ==> r.error == IllegalArgument
    ensures r.Ok? ==> fresh(r.value) && r.value.Values() == Loaded(src, parseUri, md5).value
    ensures r.Ok? ==> (r.value.HasHttpBackend() <==> src.httpBackend.Some?)
  {
    var c := new Configuration();
    var failure := c.InitValues(src, parseUri, md5);
    if failure.Some? {
      return Err(failure.value);
    }
    LoadedContents(src, parseUri, md5);
    return Ok(c);
  }
}
