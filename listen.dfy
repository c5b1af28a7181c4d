/**
  The smart router's listening addresses: the defaults `load_config`
  registers, and how `start` turns the configured bind setting and the
  `allow_remote` argument into the list the proxy server and the DNS
  server bind to.
 */
module SmartRouter {

  /** A bind setting as the configuration holds it: one address string, or a list of them. */
  datatype BindSetting = Single(ip: string) | Several(ips: seq<string>)

  /** The configuration entries the listening code reads. */
  datatype RouterConfig = RouterConfig(
    dnsBindIp: BindSetting,
    dnsPort: int,
    dnsBackupPort: int,
    proxyBindIp: BindSetting,
    proxyPort: int)

  const LOOPBACK: string := "127.0.0.1"
  /** The IPv4 wildcard address. */
  const ANY_V4: string := "0.0.0.0"
  /** The IPv6 wildcard address. */
  const ANY_V6: string := "::"

  /** The values `load_config` registers before the saved configuration is loaded over them. */
  const DEFAULTS: RouterConfig := RouterConfig(Single(LOOPBACK), 53, 8053, Single(LOOPBACK), 8086)

  /** A string becomes a one-element list; a list is copied. */
  function ListenList(b: BindSetting): (r: seq<string>)
    ensures b.Single? ==> r == [b.ip]
    ensures b.Several? ==> r == b.ips
  {
    match b
    case Single(ip) => [ip]
    case Several(ips) => ips
  }

  /**
    The condition under which remote access widens a list: `allow_remote`
    is set and the list does not hold both wildcard addresses.
   */
  predicate Widens(allowRemote: bool, ips: seq<string>)
  {
    allowRemote && (ANY_V4 !in ips || ANY_V6 !in ips)
  }

  /** The proxy server's addresses: a widened list is replaced by the IPv4 wildcard alone. */
  function ProxyListen(b: BindSetting, allowRemote: bool): seq<string>
  {
    var ips := ListenList(b);
    if Widens(allowRemote, ips) then [ANY_V4] else ips
  }

  /** One (address, port) pair per proxy address, in the list's order. */
  function ProxyAddresses(cfg: RouterConfig, allowRemote: bool): (r: seq<(string, int)>)
    ensures |r| == |ProxyListen(cfg.proxyBindIp, allowRemote)|
    ensures forall i :: 0 <= i < |r| ==> r[i] == (ProxyListen(cfg.proxyBindIp, allowRemote)[i], cfg.proxyPort)
  {
    var ips := ProxyListen(cfg.proxyBindIp, allowRemote);
    seq(|ips|, i requires 0 <= i < |ips| => (ips[i], cfg.proxyPort))
  }

  /** The DNS server's addresses: a widened list gets the IPv4 wildcard appended. */
  function DnsListen(b: BindSetting, allowRemote: bool): seq<string>
  {
    var ips := ListenList(b);
    if Widens(allowRemote, ips) then ips + [ANY_V4] else ips
  }

  /** What `start` hands to the DNS server: its addresses, port and backup port. */
  function DnsBinding(cfg: RouterConfig, allowRemote: bool): (r: (seq<string>, int, int))
    ensures r.0 == DnsListen(cfg.dnsBindIp, allowRemote)
    ensures r.1 == cfg.dnsPort && r.2 == cfg.dnsBackupPort
  {
    (DnsListen(cfg.dnsBindIp, allowRemote), cfg.dnsPort, cfg.dnsBackupPort)
  }

  /** Without `allow_remote` both servers bind exactly the configured addresses. */
  lemma LocalOnlyKeepsLists(cfg: RouterConfig)
    ensures ProxyListen(cfg.proxyBindIp, false) == ListenList(cfg.proxyBindIp)
    ensures DnsListen(cfg.dnsBindIp, false) == ListenList(cfg.dnsBindIp)
  {
  }

  /**
    With `allow_remote`, the proxy list is the configured one exactly when
    it already holds both wildcards, and otherwise the IPv4 wildcard alone.
   */
  lemma RemoteProxyListen(b: BindSetting)
    ensures ANY_V4 in ListenList(b) && ANY_V6 in ListenList(b) ==> ProxyListen(b, true) == ListenList(b)
    ensures !(ANY_V4 in ListenList(b) && ANY_V6 in ListenList(b)) ==> ProxyListen(b, true) == [ANY_V4]
  {
  }

  /**
    With `allow_remote`, the DNS list keeps every configured address in
    place, and gains the IPv4 wildcard at the end exactly when it did not
    hold both wildcards.
   */
  lemma RemoteDnsListen(b: BindSetting)
    ensures |DnsListen(b, true)| >= |ListenList(b)|
    ensures DnsListen(b, true)[..|ListenList(b)|] == ListenList(b)
    ensures |DnsListen(b, true)| == |ListenList(b)| + 1 <==> !(ANY_V4 in ListenList(b) && ANY_V6 in ListenList(b))
    ensures |DnsListen(b, true)| == |ListenList(b)| + 1 ==> DnsListen(b, true)[|ListenList(b)|] == ANY_V4
  {
  }

  /** With `allow_remote`, both servers always listen on the IPv4 wildcard. */
  lemma RemoteReachable(b: BindSetting)
    ensures ANY_V4 in ProxyListen(b, true)
    ensures ANY_V4 in DnsListen(b, true)
  {
    var ips := ListenList(b);
    if Widens(true, ips) {
      assert DnsListen(b, true)[|ips|] == ANY_V4;
    }
  }

  /**
    A configured list holding the IPv4 wildcard but not the IPv6 one gives
    the DNS server the IPv4 wildcard twice.
   */
  lemma DnsWildcardTwice(b: BindSetting, k: nat)
    requires k < |ListenList(b)| && ListenList(b)[k] == ANY_V4 && ANY_V6 !in ListenList(b)
    ensures var d := DnsListen(b, true);
      k < |d| - 1 && d[k] == ANY_V4 && d[|d| - 1] == ANY_V4
  {
  }

  /** `"0.0.0.0"` alone, with `allow_remote`: the DNS server gets it twice. */
  lemma DnsWildcardTwiceExample()
    ensures DnsListen(Single(ANY_V4), true) == [ANY_V4, ANY_V4]
  {
  }

  /** `"::"` alone, with `allow_remote`: the proxy server loses the IPv6 wildcard. */
  lemma ProxyDropsV6Example()
    ensures ProxyListen(Single(ANY_V6), true) == [ANY_V4]
    ensures DnsListen(Single(ANY_V6), true) == [ANY_V6, ANY_V4]
  {
  }

  /** The defaults: loopback only, proxy on port 8086, DNS on 53 with 8053 as backup. */
  lemma DefaultListening()
    ensures ProxyAddresses(DEFAULTS, false) == [(LOOPBACK, 8086)]
    ensures DnsBinding(DEFAULTS, false) == ([LOOPBACK], 53, 8053)
    ensures ProxyAddresses(DEFAULTS, true) == [(ANY_V4, 8086)]
    ensures DnsBinding(DEFAULTS, true) == ([LOOPBACK, ANY_V4], 53, 8053)
  {
    assert LOOPBACK[0] == '1' && ANY_V4[0] == '0';
    assert ListenList(DEFAULTS.dnsBindIp) == [LOOPBACK];
    assert Widens(true, [LOOPBACK]);
    assert [LOOPBACK] + [ANY_V4] == [LOOPBACK, ANY_V4];
  }
}
