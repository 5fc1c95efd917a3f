/**
 * The descriptor parser: it turns "scheme://..." texts into a network device
 * and into an outbound proxy. For Shadowsocks it takes the method and secret
 * from the user information, and the simple-obfs settings from the query.
 *
 * url.Parse, the base64 decoding of the user information and
 * url.QueryUnescape are library calls. They are given to the parser by their
 * results, as a `UrlLib`.
 */
module Engine {
  import opened Wrappers
  import opened Text
  import Shadowsocks

  type Uint32 = x: int | 0 <= x < 0x1_0000_0000

  datatype UrlUserinfo = UrlUserinfo(username: string, password: string, passwordSet: bool)

  /** url.Userinfo: a password is only ever present when it was set. */
  type Userinfo = u: UrlUserinfo | u.passwordSet || u.password == ""
    witness UrlUserinfo("", "", false)

  /** The parts of a parsed URL the parser reads; `user` is none when the URL has no user information. */
  datatype Url = Url(scheme: string, host: string, user: Option<Userinfo>, rawQuery: string)

  datatype UrlLib = UrlLib(
    parse: string -> Result<Url, string>,               // url.Parse
    decodeUser: Option<Userinfo> -> string,             // base64 raw-URL decoding of the user information's text, as far as it decodes
    queryUnescape: string -> Result<string, string>)    // url.QueryUnescape

  const SchemeSeparator := "://"
  const TunDriver := "tun"
  const DirectProto := "direct"
  const Socks5Proto := "socks5"

  datatype ParseError =
    | BadUrl(cause: string)
    | UnsupportedDriver(driver: string)      // "unsupported driver: ..."
    | UnsupportedProtocol(proto: string)     // "unsupported protocol: ..."
    | DeviceOpenError(cause: string)
    | MissingPasswordSeparator
    | ProxyInitError(err: Shadowsocks.Error)

  /** The text with a default scheme put in front when it has none. */
  function WithDefaultScheme(s: string, scheme: string): string
  {
    if Contains(s, SchemeSeparator) then s else scheme + SchemeSeparator + s
  }

  /** What url.Parse gives for the descriptor once the default scheme is supplied. */
  function ParsedUrl(s: string, scheme: string, lib: UrlLib): Result<Url, string>
  {
    lib.parse(WithDefaultScheme(s, scheme))
  }

  // ---------------------------------------------------------------- device

  /**
   * parseDevice. `open` stands for tun.Open with a name and an MTU. Only the
   * tun driver is known, and the device name is the URL's host.
   */
  function ParseDevice<D>(s: string, mtu: Uint32, lib: UrlLib, open: (string, Uint32) -> Result<D, string>)
    : (r: Result<D, ParseError>)
    ensures ParsedUrl(s, TunDriver, lib).Failure? ==> r == Failure(BadUrl(ParsedUrl(s, TunDriver, lib).error))
    ensures r.Success? <==>
              && ParsedUrl(s, TunDriver, lib).Success?
              && ToLower(ParsedUrl(s, TunDriver, lib).value.scheme) == TunDriver
              && open(ParsedUrl(s, TunDriver, lib).value.host, mtu).Success?
    ensures r.Success? ==> r.value == open(ParsedUrl(s, TunDriver, lib).value.host, mtu).value
    // tun.Open's error is returned as it is
    ensures var u := ParsedUrl(s, TunDriver, lib);
            u.Success? && ToLower(u.value.scheme) == TunDriver && open(u.value.host, mtu).Failure? ==>
              r == Failure(DeviceOpenError(open(u.value.host, mtu).error))
    ensures ParsedUrl(s, TunDriver, lib).Success? && ToLower(ParsedUrl(s, TunDriver, lib).value.scheme) != TunDriver ==>
              r == Failure(UnsupportedDriver(ToLower(ParsedUrl(s, TunDriver, lib).value.scheme)))
  {
    match ParsedUrl(s, TunDriver, lib)
    case Failure(e) => Failure(BadUrl(e))
    case Success(u) =>
      var driver := ToLower(u.scheme);
      if driver == TunDriver then
        match open(u.host, mtu)
        case Success(device) => Success(device)
        case Failure(e) => Failure(DeviceOpenError(e))
      else
        Failure(UnsupportedDriver(driver))
  }

  /** A device descriptor without "://" is read as one for the tun driver. */
  lemma DefaultDriverIsTun<D>(s: string, mtu: Uint32, lib: UrlLib, open: (string, Uint32) -> Result<D, string>)
    requires !Contains(s, SchemeSeparator)
    ensures ParseDevice(s, mtu, lib, open) == ParseDevice(TunDriver + SchemeSeparator + s, mtu, lib, open)
  {
    ContainsBetween(TunDriver, SchemeSeparator, s);
  }

  // ---------------------------------------------------------------- user information

  function Username(user: Option<Userinfo>): string
  {
    if user.Some? then user.value.username else ""
  }

  function Password(user: Option<Userinfo>): (string, bool)
  {
    if user.Some? then (user.value.password, user.value.passwordSet) else ("", false)
  }

  /**
   * The Shadowsocks method and secret. With a password in the user
   * information they are the user name and that password; otherwise they are
   * the decoded user information, cut at its first ':'.
   */
  function Credentials(user: Option<Userinfo>, lib: UrlLib): (r: Result<(string, string), ParseError>)
    ensures Password(user).1 ==> r == Success((Username(user), Password(user).0))
    ensures !Password(user).1 ==> (r.Success? <==> ':' in lib.decodeUser(user))
    ensures !Password(user).1 && r.Success? ==>
              r.value.0 + [':'] + r.value.1 == lib.decodeUser(user) && ':' !in r.value.0
    ensures r.Failure? ==> r.error == MissingPasswordSeparator
  {
    var (pass, isSet) := Password(user);
    if isSet then Success((Username(user), pass))
    else
      var userInfo := SplitFirst(lib.decodeUser(user), ':');
      if |userInfo| != 2 then Failure(MissingPasswordSeparator)
      else Success((userInfo[0], userInfo[1]))
  }

  /**
   * The same, as written: the decoded user information is indexed at [1]
   * whether or not it held a ':', so the code is only defined when it did.
   */
  function CredentialsAsWritten(user: Option<Userinfo>, lib: UrlLib): (r: (string, string))
    requires Password(user).1 || |SplitFirst(lib.decodeUser(user), ':')| == 2
    ensures Credentials(user, lib) == Success(r)
  {
    var (pass, isSet) := Password(user);
    if isSet then (Username(user), pass)
    else
      var userInfo := SplitFirst(lib.decodeUser(user), ':');
      (userInfo[0], userInfo[1])
  }

  /**
   * A base64 user information without a password, decoding to a method name
   * with no ':', leaves one piece: index [1] is out of range as written, and
   * the model reports the missing separator instead.
   */
  lemma CredentialsWithoutSeparator(lib: UrlLib)
    requires lib.decodeUser(Some(UrlUserinfo("YWVzLTI1Ni1nY20", "", false))) == "aes-256-gcm"
    ensures |SplitFirst(lib.decodeUser(Some(UrlUserinfo("YWVzLTI1Ni1nY20", "", false))), ':')| == 1
    ensures Credentials(Some(UrlUserinfo("YWVzLTI1Ni1nY20", "", false)), lib) == Failure(MissingPasswordSeparator)
  {
    assert ':' !in "aes-256-gcm";
  }

  // ---------------------------------------------------------------- query options

  /** The `key=value` split of a query segment at its first '='; none when it has no '='. */
  function Setting(segment: string): (r: Option<(string, string)>)
    ensures r.None? <==> '=' !in segment
    ensures r.Some? ==> r.value.0 + ['='] + r.value.1 == segment && '=' !in r.value.0
  {
    var data := SplitFirst(segment, '=');
    if |data| != 2 then None else Some((data[0], data[1]))
  }

  /**
   * The value the segments give `key`: that of the last segment that sets
   * `key`, or "" when none does.
   */
  function OptionValue(segments: seq<string>, key: string): string
  {
    if |segments| == 0 then ""
    else
      var setting := Setting(segments[|segments| - 1]);
      if setting.Some? && setting.value.0 == key then setting.value.1
      else OptionValue(segments[..|segments| - 1], key)
  }

  /** Taking one more segment: it decides the value if it sets the key, and changes nothing otherwise. */
  lemma OptionValueStep(segments: seq<string>, i: nat, key: string)
    requires i < |segments|
    ensures OptionValue(segments[..i + 1], key)
            == if Sets(segments[i], key) then Setting(segments[i]).value.1 else OptionValue(segments[..i], key)
  {
    assert segments[..i + 1][..i] == segments[..i];
  }

  /** The segment sets `key`. */
  predicate Sets(segment: string, key: string)
  {
    Setting(segment).Some? && Setting(segment).value.0 == key
  }

  /** The last segment setting a key gives its value; the value may itself hold '='. */
  lemma OptionValueLastWins(segments: seq<string>, key: string, value: string)
    requires '=' !in key
    ensures OptionValue(segments + [key + "=" + value], key) == value
  {
    SplitFirstOf(key, '=', value);
  }

  /** A segment without '=' changes nothing. */
  lemma OptionValueSkipsBareSegment(segments: seq<string>, segment: string, key: string)
    requires '=' !in segment
    ensures OptionValue(segments + [segment], key) == OptionValue(segments, key)
  {
    assert (segments + [segment])[..|segments|] == segments;
  }

  /** A segment setting another key changes nothing. */
  lemma OptionValueIgnoresOtherKey(segments: seq<string>, other: string, value: string, key: string)
    requires '=' !in other && other != key
    ensures OptionValue(segments + [other + "=" + value], key) == OptionValue(segments, key)
  {
    SplitFirstOf(other, '=', value);
    assert (segments + [other + "=" + value])[..|segments|] == segments;
  }

  /** When no segment sets `key` its value is empty. */
  lemma {:induction false} OptionValueDefault(segments: seq<string>, key: string)
    requires forall k | 0 <= k < |segments| :: !Sets(segments[k], key)
    ensures OptionValue(segments, key) == ""
  {
    if |segments| > 0 {
      OptionValueDefault(segments[..|segments| - 1], key);
    }
  }

  /** The value of a key is that of the last segment setting it, whatever came before. */
  lemma {:induction false} OptionValueIsLastSetting(segments: seq<string>, key: string, i: nat)
    requires i < |segments| && Sets(segments[i], key)
    requires forall k | i < k < |segments| :: !Sets(segments[k], key)
    ensures OptionValue(segments, key) == Setting(segments[i]).value.1
  {
    if i < |segments| - 1 {
      OptionValueIsLastSetting(segments[..|segments| - 1], key, i);
    }
  }

  /** url.QueryUnescape's result; on a malformed escape it gives the empty string. */
  function Unescaped(rawQuery: string, lib: UrlLib): (q: string)
    ensures lib.queryUnescape(rawQuery).Success? ==> q == lib.queryUnescape(rawQuery).value
    // the unescaping error is dropped and the query is read as empty
    ensures lib.queryUnescape(rawQuery).Failure? ==> q == ""
  {
    match lib.queryUnescape(rawQuery)
    case Success(q) => q
    case Failure(_) => ""
  }

  /**
   * The simple-obfs settings of a query, read by walking its ';'-separated
   * segments. Only the keys "obfs" and "obfs-host" are kept.
   */
  method ScanObfsOptions(query: string) returns (obfsMode: string, obfsHost: string)
    ensures obfsMode == OptionValue(Split(query, ';'), "obfs")
    ensures obfsHost == OptionValue(Split(query, ';'), "obfs-host")
  {
    obfsMode, obfsHost := "", "";
    var segments := Split(query, ';');
    for i := 0 to |segments|
      invariant obfsMode == OptionValue(segments[..i], "obfs")
      invariant obfsHost == OptionValue(segments[..i], "obfs-host")
    {
      OptionValueStep(segments, i, "obfs");
      OptionValueStep(segments, i, "obfs-host");
      var data := SplitFirst(segments[i], '=');
      if |data| != 2 {
        continue;
      }
      var key, value := data[0], data[1];
      if key == "obfs" {
        obfsMode := value;
      } else if key == "obfs-host" {
        obfsHost := value;
      }
    }
    assert segments[..|segments|] == segments;
  }

  // ---------------------------------------------------------------- Shadowsocks descriptor

  datatype ShadowsocksParams = ShadowsocksParams(
    address: string, methodName: string, password: string, obfsMode: string, obfsHost: string)

  /** What parseShadowsocks gives for a URL. */
  function ShadowsocksParamsOf(u: Url, lib: UrlLib): (r: Result<ShadowsocksParams, ParseError>)
    ensures r.Failure? <==> Credentials(u.user, lib).Failure?
    ensures r.Failure? ==> r.error == MissingPasswordSeparator
    ensures r.Success? ==> r.value.address == u.host
    ensures r.Success? ==> (r.value.methodName, r.value.password) == Credentials(u.user, lib).value
    // the query is unescaped before it is cut at ';'
    ensures r.Success? ==> r.value.obfsMode == OptionValue(Split(Unescaped(u.rawQuery, lib), ';'), "obfs")
    ensures r.Success? ==> r.value.obfsHost == OptionValue(Split(Unescaped(u.rawQuery, lib), ';'), "obfs-host")
  {
    match Credentials(u.user, lib)
    case Failure(e) => Failure(e)
    case Success((methodName, password)) =>
      var segments := Split(Unescaped(u.rawQuery, lib), ';');
      Success(ShadowsocksParams(u.host, methodName, password,
                                OptionValue(segments, "obfs"), OptionValue(segments, "obfs-host")))
  }

  /** parseShadowsocks, walking the query as the source does. */
  method ParseShadowsocks(u: Url, lib: UrlLib) returns (r: Result<ShadowsocksParams, ParseError>)
    ensures r == ShadowsocksParamsOf(u, lib)
  {
    var address := u.host;
    var methodName, password;
    var (pass, isSet) := Password(u.user);
    if isSet {
      methodName, password := Username(u.user), pass;
    } else {
      var data := lib.decodeUser(u.user);
      var userInfo := SplitFirst(data, ':');
      if |userInfo| != 2 {
        return Failure(MissingPasswordSeparator);
      }
      methodName, password := userInfo[0], userInfo[1];
    }

    var rawQuery := Unescaped(u.rawQuery, lib);
    var obfsMode, obfsHost := ScanObfsOptions(rawQuery);
    return Success(ShadowsocksParams(address, methodName, password, obfsMode, obfsHost));
  }

  /** A query of two settings, "obfs" then "obfs-host", gives both values. */
  lemma TwoSettingQuery(mode: string, host: string)
    requires ';' !in mode && ';' !in host
    ensures OptionValue(Split(("obfs" + "=" + mode) + ";" + ("obfs-host" + "=" + host), ';'), "obfs") == mode
    ensures OptionValue(Split(("obfs" + "=" + mode) + ";" + ("obfs-host" + "=" + host), ';'), "obfs-host") == host
  {
    var first, second := "obfs" + "=" + mode, "obfs-host" + "=" + host;
    assert ';' !in first && ';' !in second;
    JoinCons(first, [second], ';');
    SplitJoin([first, second], ';');
    OptionValueLastWins([], "obfs", mode);
    assert [] + [first] == [first];
    OptionValueIgnoresOtherKey([first], "obfs-host", host, "obfs");
    assert [first] + [second] == [first, second];
    OptionValueLastWins([first], "obfs-host", host);
  }

  /**
   * The settings are read from the unescaped query: whatever the raw query
   * holds, a query that unescapes to `obfs=<mode>;obfs-host=<host>` gives
   * that mode and that host.
   */
  lemma EscapedSeparatorSplits(u: Url, lib: UrlLib, mode: string, host: string)
    requires Credentials(u.user, lib).Success?
    requires ';' !in mode && ';' !in host
    requires lib.queryUnescape(u.rawQuery) == Success(("obfs" + "=" + mode) + ";" + ("obfs-host" + "=" + host))
    ensures ShadowsocksParamsOf(u, lib).Success?
    ensures ShadowsocksParamsOf(u, lib).value.obfsMode == mode
    ensures ShadowsocksParamsOf(u, lib).value.obfsHost == host
  {
    TwoSettingQuery(mode, host);
  }

  // ---------------------------------------------------------------- proxy

  datatype Proxy =
    | Direct
    | Socks5(address: string, username: string, password: string)
    | Ss(adapter: Shadowsocks.Adapter)

  /** The protocol name of a proxy. */
  function ProtocolOf(p: Proxy): string
  {
    match p
    case Direct => DirectProto
    case Socks5(_, _, _) => Socks5Proto
    case Ss(adapter) => Shadowsocks.Proto(adapter)
  }

  /** parseSocks: the server address, the user name and the password of the URL. */
  function ParseSocks(u: Url): (r: (string, string, string))
    ensures r.0 == u.host
    ensures u.user.None? ==> r.1 == "" && r.2 == ""
    ensures u.user.Some? ==> r.1 == u.user.value.username && r.2 == u.user.value.password
  {
    (u.host, Username(u.user), Password(u.user).0)
  }

  /**
   * parseProxy. `pickCipher` stands for core.PickCipher as NewShadowsocks
   * uses it.
   */
  function ParseProxy(s: string, lib: UrlLib, pickCipher: (string, string) -> Option<string>)
    : (r: Result<Proxy, ParseError>)
    ensures ParsedUrl(s, Socks5Proto, lib).Failure? ==> r == Failure(BadUrl(ParsedUrl(s, Socks5Proto, lib).error))
    // a proxy is built only for a known protocol, and it is the one the lower-cased scheme names
    ensures r.Success? ==>
              ParsedUrl(s, Socks5Proto, lib).Success?
              && ProtocolOf(r.value) == ToLower(ParsedUrl(s, Socks5Proto, lib).value.scheme)
    ensures ParsedUrl(s, Socks5Proto, lib).Success?
            && ToLower(ParsedUrl(s, Socks5Proto, lib).value.scheme) !in {DirectProto, Socks5Proto, Shadowsocks.ShadowsocksProto} ==>
              r == Failure(UnsupportedProtocol(ToLower(ParsedUrl(s, Socks5Proto, lib).value.scheme)))
    // direct and SOCKS5 descriptors always succeed; a SOCKS5 proxy gets what parseSocks reads from the URL
    ensures var u := ParsedUrl(s, Socks5Proto, lib);
            u.Success? && ToLower(u.value.scheme) == DirectProto ==> r == Success(Direct)
    ensures var u := ParsedUrl(s, Socks5Proto, lib);
            u.Success? && ToLower(u.value.scheme) == Socks5Proto ==>
              r == Success(Socks5(ParseSocks(u.value).0, ParseSocks(u.value).1, ParseSocks(u.value).2))
    // a Shadowsocks descriptor fails when its credentials are malformed or its cipher is refused
    ensures ParsedUrl(s, Socks5Proto, lib).Success?
            && ToLower(ParsedUrl(s, Socks5Proto, lib).value.scheme) == Shadowsocks.ShadowsocksProto ==>
              var p := ShadowsocksParamsOf(ParsedUrl(s, Socks5Proto, lib).value, lib);
              r.Failure? <==> p.Failure? || pickCipher(p.value.methodName, p.value.password).Some?
    // and the error is the credentials' own, or the cipher's refusal wrapped as an initialisation error
    ensures var u := ParsedUrl(s, Socks5Proto, lib);
            u.Success? && ToLower(u.value.scheme) == Shadowsocks.ShadowsocksProto
            && ShadowsocksParamsOf(u.value, lib).Failure? ==>
              r == Failure(ShadowsocksParamsOf(u.value, lib).error)
    ensures var u := ParsedUrl(s, Socks5Proto, lib);
            u.Success? && ToLower(u.value.scheme) == Shadowsocks.ShadowsocksProto
            && ShadowsocksParamsOf(u.value, lib).Success? ==>
              var p := ShadowsocksParamsOf(u.value, lib).value;
              pickCipher(p.methodName, p.password).Some? ==>
                r == Failure(ProxyInitError(Shadowsocks.InitializeError(pickCipher(p.methodName, p.password).value)))
  {
    match ParsedUrl(s, Socks5Proto, lib)
    case Failure(e) => Failure(BadUrl(e))
    case Success(u) =>
      var proto := ToLower(u.scheme);
      if proto == DirectProto then Success(Direct)
      else if proto == Socks5Proto then
        var (address, username, password) := ParseSocks(u);
        Success(Socks5(address, username, password))
      else if proto == Shadowsocks.ShadowsocksProto then
        match ShadowsocksParamsOf(u, lib)
        case Failure(e) => Failure(e)
        case Success(p) =>
          match Shadowsocks.NewShadowsocks(p.address, p.methodName, p.password, p.obfsMode, p.obfsHost, pickCipher)
          case Failure(e) => Failure(ProxyInitError(e))
          case Success(adapter) => Success(Ss(adapter))
      else Failure(UnsupportedProtocol(proto))
  }

  /** A proxy descriptor without "://" is read as a SOCKS5 one. */
  lemma DefaultProtocolIsSocks5(s: string, lib: UrlLib, pickCipher: (string, string) -> Option<string>)
    requires !Contains(s, SchemeSeparator)
    ensures ParseProxy(s, lib, pickCipher) == ParseProxy(Socks5Proto + SchemeSeparator + s, lib, pickCipher)
  {
    ContainsBetween(Socks5Proto, SchemeSeparator, s);
  }

  /** The scheme of a proxy descriptor is matched without regard to letter case. */
  lemma ProtocolIgnoresCase(s: string, t: string, lib: UrlLib, pickCipher: (string, string) -> Option<string>)
    requires ParsedUrl(s, Socks5Proto, lib).Success? && ParsedUrl(t, Socks5Proto, lib).Success?
    requires ParsedUrl(t, Socks5Proto, lib).value
             == ParsedUrl(s, Socks5Proto, lib).value.(scheme := ParsedUrl(t, Socks5Proto, lib).value.scheme)
    requires EqualFold(ParsedUrl(s, Socks5Proto, lib).value.scheme, ParsedUrl(t, Socks5Proto, lib).value.scheme)
    ensures ParseProxy(s, lib, pickCipher) == ParseProxy(t, lib, pickCipher)
  {
    ToLowerDecidesFold(ParsedUrl(s, Socks5Proto, lib).value.scheme, ParsedUrl(t, Socks5Proto, lib).value.scheme);
  }

  /**
   * An "ss" descriptor with good credentials and an accepted cipher gives the
   * adapter built from its parameters, and that adapter reports the scheme as
   * its protocol.
   */
  lemma ShadowsocksDescriptorBuildsAdapter(s: string, lib: UrlLib, pickCipher: (string, string) -> Option<string>)
    requires ParsedUrl(s, Socks5Proto, lib).Success?
    requires ToLower(ParsedUrl(s, Socks5Proto, lib).value.scheme) == Shadowsocks.ShadowsocksProto
    requires ShadowsocksParamsOf(ParsedUrl(s, Socks5Proto, lib).value, lib).Success?
    requires var p := ShadowsocksParamsOf(ParsedUrl(s, Socks5Proto, lib).value, lib).value;
             pickCipher(p.methodName, p.password).None?
    ensures var p := ShadowsocksParamsOf(ParsedUrl(s, Socks5Proto, lib).value, lib).value;
            ParseProxy(s, lib, pickCipher)
            == Success(Ss(Shadowsocks.Adapter(p.address, Shadowsocks.Cipher(p.methodName, p.password), p.obfsMode, p.obfsHost)))
    ensures ProtocolOf(ParseProxy(s, lib, pickCipher).value) == ToLower(ParsedUrl(s, Socks5Proto, lib).value.scheme)
  {
  }
}
