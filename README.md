# Shadowsocks adapter and descriptor parser of tun2socks, in Dafny

This project models two pieces of tun2socks, a program that forwards the
traffic of a virtual network device through a proxy:

- **The descriptor parser** (`engine/parse.go`). A device descriptor such as
  `tun://tun0`, or just `tun0`, selects the tun driver. A proxy descriptor
  such as `ss://...`, `socks5://host:port`, `direct://` or just `host:port`
  selects and builds an outbound proxy. Schemes are matched without regard to
  case. A descriptor without `://` gets the default scheme: `tun` for devices
  and `socks5` for proxies. For Shadowsocks, the cipher method and secret come
  from the URL's user information. They are either `method:password` in the
  clear, or base64 text that decodes to `method:password`. The simple-obfs
  settings `obfs` and `obfs-host` come from the unescaped query, as
  `;`-separated `key=value` settings.
- **The Shadowsocks adapter** (`proxy/shadowsocks.go`). Stream setup dials the
  server and turns on keep-alive. It then wraps the connection in the TLS or
  HTTP obfuscation that the obfs mode selects, then in the cipher. It writes
  the destination's SOCKS address (section 5 of RFC 1928) once, and closes the
  connection if anything fails after the dial. Datagram setup opens a local
  socket, resolves the server address and wraps the socket in the cipher. The
  resulting datagram connection sends every packet to the server. The packet
  is the SOCKS5 UDP request (section 7 of RFC 1928) without its three RSV/FRAG
  bytes. It receives by removing the SOCKS address from the front of the
  datagram. It does so by shifting the caller's buffer in place.

Files:

- `wrappers.dfy`: `Option` and `Result`.
- `text.dfy`: module `Text`. The Go string operations the parser uses:
  `Contains`, `Split`, `SplitN(…, 2)` (here `SplitFirst`) and ASCII `ToLower`.
  Each is proved against a characterisation or an inverse (`Join`).
- `shadowsocks.dfy`: module `Shadowsocks`, for `proxy/shadowsocks.go`.
- `engine.dfy`: module `Engine`, for `engine/parse.go`.

Nothing is run. The network is represented as follows:
- What a collaborator returns (a dialed socket or an error, a write error, a
  datagram received) is a parameter of the operation.
- What the adapter does to the network (dial, keep-alive, write, close,
  listen, resolve) comes back as a trace of `Event`s.
- Library functions are parameters of function type. These are url.Parse,
  base64 decoding, url.QueryUnescape, core.PickCipher, net.SplitHostPort,
  tun.Open and the socks5 codec. Two of them carry their contract in their
  type:
  - `socks5.SplitAddr` returns a prefix of its input, or nothing.
  - `socks5.EncodeUDPPacket` returns at least three bytes.

Behaviour of the code worth knowing, and where the model departs from it:
- When the address-frame write fails, `DialContext` returns the closed,
  wrapped connection together with the error.
- The members named after the source functions follow the corrected
  behaviour of the two Findings below. `Credentials`, and through it
  `ShadowsocksParamsOf`, `ParseShadowsocks` and `ParseProxy`, report a base64
  user information without `:` as `MissingPasswordSeparator`, where the code
  indexes out of range. `DialUDP` closes the socket it opened when the server
  address does not resolve, where the code leaves it open.
- The code as written is modelled by `Engine.CredentialsAsWritten` and
  `Shadowsocks.DialUDPAsWritten`. `CredentialsAsWritten` is proved to agree
  with `Credentials` wherever the code does not fail. `DialUDPAsWritten`
  returns the same result as `DialUDP` on every input, and does the same
  thing except when the resolution fails.

## Model

| member | source | states |
|---|---|---|
| `Text.Split` | engine/parse.go:80 | the pieces of `strings.Split`: at least one, and none contains the separator |
| `Text.JoinSplit` | engine/parse.go:80 | joining the pieces of a split with the separator gives back the original text |
| `Text.SplitAfter` | engine/parse.go:80 | a separator-free head followed by the separator becomes the first piece, and the rest is split on its own |
| `Text.SplitJoin` | engine/parse.go:80 | splitting the join of separator-free pieces gives back exactly those pieces |
| `Text.SplitFirst` | engine/parse.go:81 | `SplitN(s, sep, 2)` gives `[s]` exactly when `s` holds no separator, otherwise a head without the separator and the whole rest, with `head + sep + rest == s` |
| `Text.SplitFirstOf` | engine/parse.go:81 | the cut is at the first separator, so the part after it may itself hold separators |
| `Text.ToLower` | engine/parse.go:45 | the result has no upper-case ASCII letter and equals the input up to case |
| `Text.ToLowerDecidesFold` | engine/parse.go:25 | two texts lower-case to the same text exactly when they agree up to case (both directions) |
| `Text.ContainsBetween` | engine/parse.go:36 | a text with `scheme + "://"` in front of it contains `"://"` |
| `Engine.ParseDevice` | engine/parse.go:14-33 | a URL error is returned as is; a device is returned exactly when the lower-cased scheme is `tun` and tun.Open succeeds, and it is the device opened for the URL's host and the MTU; tun.Open's error is returned as it is; any other driver gives "unsupported driver" with the lower-cased name |
| `Engine.DefaultDriverIsTun` | engine/parse.go:15-17 | a device descriptor without `://` is parsed exactly as `tun://` followed by it |
| `Engine.ParseProxy` | engine/parse.go:35-57 | a URL error is returned as is; any proxy built is the one the lower-cased scheme names; an unknown scheme gives "unsupported protocol" with the lower-cased scheme; `direct` gives the direct proxy; `socks5` gives the SOCKS5 proxy with the host, user name and password `ParseSocks` reads; `ss` fails exactly when its credentials are malformed, with their error, or the cipher is refused, with the refusal as an initialisation error |
| `Engine.DefaultProtocolIsSocks5` | engine/parse.go:36-38 | a proxy descriptor without `://` is parsed exactly as `socks5://` followed by it |
| `Engine.ProtocolIgnoresCase` | engine/parse.go:45-47 | descriptors whose URLs differ only in the letter case of the scheme give the same result |
| `Engine.ShadowsocksDescriptorBuildsAdapter` | engine/parse.go:52-53 | an `ss` descriptor with good credentials and an accepted cipher yields the adapter built from the parsed address, method, secret and obfs settings, whose protocol name is the scheme |
| `Engine.ParseSocks` | engine/parse.go:59-64 | the SOCKS5 proxy gets the URL's host, user name and password, all empty without user information |
| `Engine.Credentials` | engine/parse.go:69-77 | with a password set, method and secret are the user name and that password, with no decoding; otherwise success exactly when the decoded user information holds `:`, and then `method + ":" + secret` is that text with no `:` in the method |
| `Engine.CredentialsAsWritten` | engine/parse.go:73-76 | the code as written is defined only when the split yields two pieces, and then agrees with `Credentials` |
| `Engine.CredentialsWithoutSeparator` | engine/parse.go:73-76 | decoded user information `aes-256-gcm` splits into one piece, so index 1 is out of range as written; the model reports the missing separator |
| `Engine.Setting` | engine/parse.go:81-87 | a segment without `=` gives no setting; otherwise key and value with `key + "=" + value == segment` and no `=` in the key |
| `Engine.OptionValueStep` | engine/parse.go:80-93 | one more segment decides the value when it sets the key, and leaves it unchanged otherwise |
| `Engine.OptionValueLastWins` | engine/parse.go:88-93 | a final `key=value` segment makes the key's value `value`, even when `value` contains `=` |
| `Engine.OptionValueSkipsBareSegment` | engine/parse.go:81-84 | a segment without `=` changes no value |
| `Engine.OptionValueIgnoresOtherKey` | engine/parse.go:88-93 | a segment setting another key changes no value of this key |
| `Engine.OptionValueDefault` | engine/parse.go:66-93 | a key no segment sets has the empty value |
| `Engine.OptionValueIsLastSetting` | engine/parse.go:80-94 | a key's value is that of the last segment setting it, whatever earlier segments set |
| `Engine.ScanObfsOptions` | engine/parse.go:80-94 | the loop over the `;`-segments leaves `obfsMode` and `obfsHost` as the values the segments give `obfs` and `obfs-host` |
| `Engine.Unescaped` | engine/parse.go:79 | the unescaped query when url.QueryUnescape succeeds; on its error the error is dropped and the query is empty |
| `Engine.ShadowsocksParamsOf` | engine/parse.go:66-97 | fails exactly when the credentials do, with the missing-separator error; the address is the URL's host; the obfs settings are read from the query after unescaping and then cutting at `;` |
| `Engine.ParseShadowsocks` | engine/parse.go:66-97 | the step-by-step parse gives exactly `ShadowsocksParamsOf` |
| `Engine.TwoSettingQuery` | engine/parse.go:80-93 | the query `obfs=<mode>;obfs-host=<host>` gives that mode and that host |
| `Engine.EscapedSeparatorSplits` | engine/parse.go:79-80 | whatever the raw query holds, one that unescapes to `obfs=<mode>;obfs-host=<host>` gives that mode and that host, since the settings are read after unescaping |
| `Shadowsocks.NewShadowsocks` | proxy/shadowsocks.go:28-40 | fails with an initialisation error exactly when the cipher is refused; otherwise the adapter keeps the address, the cipher built from method and secret, and the obfs mode and host |
| `Shadowsocks.Proto` | proxy/shadowsocks.go:42-44 | every Shadowsocks adapter reports `ss`, the scheme `ParseProxy` builds it for |
| `Shadowsocks.DialContext` | proxy/shadowsocks.go:46-70 | dials "tcp" to the server first; a dial failure returns no connection and a connect error; otherwise keep-alive is set on the dialed socket, the result is the cipher over the obfs wrapper over the socket ("tls": TLS obfs with the obfs host; "http": HTTP obfs with the obfs host and the server port; anything else: none), the address frame is written exactly once, through the cipher, the write error is returned as is, and the connection is closed as the last step exactly when an error is returned; the whole trace is exactly dial, keep-alive, write, and the close on error |
| `Shadowsocks.StreamSetupTrace` | proxy/shadowsocks.go:53-68 | a stream setup trace holds one write, and one close exactly when the setup failed |
| `Shadowsocks.DialUDPAsWritten` | proxy/shadowsocks.go:72-85 | returns what the corrected `DialUDP` returns on every input, and does exactly what it does except when listening succeeds and resolving fails: then it listens and resolves and closes nothing |
| `Shadowsocks.DialUDPAsWrittenLeaks` | proxy/shadowsocks.go:78-81 | listening gives socket 7, resolving fails, and socket 7 is never closed |
| `Shadowsocks.DialUDP` | proxy/shadowsocks.go:72-85 | succeeds exactly when listening and resolving do, and then returns the cipher-wrapped socket bound to the resolved server address; listen and resolve errors are reported as such; the opened socket is closed on failure, and nothing is closed on success; the whole trace is given in each case: listen; listen, resolve and close; listen and resolve |
| `Shadowsocks.FrameFor` | proxy/shadowsocks.go:95-99 | request metadata gives its own serialised SOCKS address; any other address gives the codec's `ParseAddrToSocksAddr` |
| `Shadowsocks.WriteTo` | proxy/shadowsocks.go:93-105 | the packet always goes to the stored server address; it is sent exactly when encoding succeeds, and is the encoded request without its first three bytes; an encoding error sends nothing and is returned |
| `Shadowsocks.WriteToDependsOnlyOnFrame` | proxy/shadowsocks.go:95-104 | two destinations with the same SOCKS address give the same result: the same packet sent to the same place, or the same error |
| `Shadowsocks.ShiftDownKeepsPayload` | proxy/shadowsocks.go:123-124 | after `copy(b, b[k:])` the first `n - k` bytes are the bytes that were at `[k, n)` |
| `Shadowsocks.CopyDown` | proxy/shadowsocks.go:123 | the buffer afterwards is its old content from `k` on, followed by its old last `k` bytes |
| `Shadowsocks.ReadFrom` | proxy/shadowsocks.go:107-125 | a read error is returned with count 0 and no address; no SOCKS address in front of the `n` bytes read, or one with no UDP form, gives count 0, no address and "parse addr error", with the buffer as the read left it; otherwise the count is `n` minus the address length, the address is the UDP form of the sender, and the buffer is the read's buffer shifted down by the address length, so it starts with the payload |
| `Shadowsocks.EchoRoundTrip` | proxy/shadowsocks.go:93-124 | a payload sent with `WriteTo` to a destination and echoed back by the server comes out of `ReadFrom` unchanged, from the UDP form of that destination's SOCKS address, when the codec is the RFC 1928 UDP request format |

## Left out

- Real network I/O is not modelled: dialing, listening, resolution,
  keep-alive, socket reads and writes. Their outcomes are parameters and the
  adapter's actions are a trace. `setKeepAlive` is recorded as an event only.
- Context cancellation and timeouts of `DialContext` are left out. They are
  runtime behaviour of the dialer, which is not part of this model.
- The cipher (core.PickCipher, StreamConn, PacketConn) and the simple-obfs
  TLS and HTTP formats are foreign libraries. They appear as opaque layers
  (`Cipher`, `Conn`, `PacketSocket`). A cipher is known only by the method and
  secret it was built from.
- socks5.SplitAddr, socks5.EncodeUDPPacket, socks5.ParseAddrToSocksAddr,
  Addr.UDPAddr and Metadata.SerializesSocksAddr are not part of this model.
  They are parameters, and only their contracts above are assumed, so the
  RFC 1928 address layout itself is not modelled. `EchoRoundTrip` states the
  RFC 1928 layout as its precondition.
- url.Parse, url.QueryUnescape, the base64 decoding of the user information,
  net.SplitHostPort and tun.Open are library calls. Their results are
  parameters.
- proxy/proto.go is not part of this model. The protocol names are taken as
  `direct`, `socks5` and `ss`, and the tun driver name as `tun`.
- NewDirect and NewSocks5 are not part of this model. The direct proxy is a
  constant, and a SOCKS5 proxy holds the three parsed fields.
- Error texts built with fmt.Errorf are error variants that carry the same
  data, not strings.
- `Text.ToLower`: lower-cases ASCII letters only, where Go's strings.ToLower
  folds all of Unicode. Schemes and drivers that url.Parse accepts are ASCII.
- `Shadowsocks.WriteTo`: returns the packet and address handed to the cipher
  socket, not the `(n, err)` that socket reports. The code returns that result
  unchanged.
- `Shadowsocks.ReadFrom`: the underlying read is given by the count it
  returned and the whole buffer as it left it, so nothing is assumed about the
  bytes it writes past the datagram. The count being at most the buffer's
  length is the io.Reader contract, and it is a precondition. On the read's
  own error the buffer is taken as unchanged. Whatever that read writes on its
  error path is not modelled.
- `DialUDP`'s metadata argument is unused by the code and is left out.

## Findings

| source | as written | input that shows it | evidently intended | confidence | as-written member | corrected member |
|---|---|---|---|---|---|---|
| engine/parse.go:73-76 | the decoded user information is indexed at `[1]` without checking that `SplitN` found a `:` | `ss://YWVzLTI1Ni1nY20@host:8388` (no password; decodes to `aes-256-gcm`): one piece, index out of range | reject the descriptor with an error | high, not executed | `Engine.CredentialsAsWritten` | `Engine.Credentials` |
| proxy/shadowsocks.go:78-81 | when `ResolveUDPAddr` fails, the packet socket opened by `ListenPacket` is neither closed nor returned | listening succeeds (socket 7) and resolving the server address fails: socket 7 stays open | close the socket before returning the error, as `DialContext` does | medium, not executed | `Shadowsocks.DialUDPAsWritten` | `Shadowsocks.DialUDP` |
