/** The presence advertiser (cmd/helpers.go): resolving the host's identity
    from its outbound address and network interfaces, naming the mDNS
    announcement, and restarting the announcement when the address changes.
    The resolvers and zeroconf are outside the model: their answers are
    parameters. */
module Presence {
  import opened Types
  import opened Strings

  /** An IP address by its text form (net.IP.String()); two addresses are
      Equal exactly when their texts are equal. */
  type IP = string

  /** An entry of Interface.Addrs(); only *net.IPNet and *net.IPAddr carry an IP. */
  datatype Addr = IPNet(ip: IP) | IPAddr(ip: IP) | OtherAddr

  /** A network interface; a nil hardware address is None. */
  datatype Interface = Interface(index: int, name: string, hardwareAddr: Option<seq<bv8>>)

  /** One interface of net.Interfaces() with what its Addrs() call answers. */
  datatype InterfaceEntry = InterfaceEntry(iface: Interface, addrs: Result<seq<Addr>>)

  /** What os.Hostname, net.Dial("udp", ...).LocalAddr() and net.Interfaces answer. */
  datatype NetEnv = NetEnv(hostname: Result<string>, outboundIP: Result<IP>, interfaces: Result<seq<InterfaceEntry>>)

  /** HostInfo: the host's identity as the announcement uses it. */
  datatype HostInfo = HostInfo(hostName: string, ipAddr: IP, hwAddr: seq<bv8>, iface: Interface)

  const ServicePort := 9876
  const ServiceType := "_iw._tcp"
  const ServiceDomain := "local."

  /** The IP an address entry carries, as the type switch of getHostInfo finds it. */
  function AddrIP(a: Addr): Option<IP> {
    match a
    case IPNet(ip) => Some(ip)
    case IPAddr(ip) => Some(ip)
    case OtherAddr => None
  }

  predicate OwnsAddress(addrs: seq<Addr>, ip: IP) {
    exists j :: 0 <= j < |addrs| && AddrIP(addrs[j]) == Some(ip)
  }

  /** Where the interface loop of getHostInfo stands after `entries`: the
      error of the first failing Addrs call, or else the last interface that
      owns `ip` (None while there is none). */
  function Scan(entries: seq<InterfaceEntry>, ip: IP): Result<Option<Interface>> {
    if entries == [] then Ok(None)
    else
      match Scan(entries[..|entries| - 1], ip)
      case Err(e) => Err(e)
      case Ok(chosen) =>
        var last := entries[|entries| - 1];
        match last.addrs
        case Err(e) => Err(e)
        case Ok(addrs) => if OwnsAddress(addrs, ip) then Ok(Some(last.iface)) else Ok(chosen)
  }

  /** What getHostInfo returns. */
  function HostInfoOf(env: NetEnv): Result<HostInfo> {
    match env.hostname
    case Err(e) => Err(e)
    case Ok(hostname) =>
      match env.outboundIP
      case Err(e) => Err(e)
      case Ok(ip) =>
        match env.interfaces
        case Err(e) => Err(e)
        case Ok(entries) =>
          match Scan(entries, ip)
          case Err(e) => Err(e)
          case Ok(None) => Err(HardwareAddrNotFound)
          case Ok(Some(iface)) =>
            if iface.hardwareAddr.None? then Err(HardwareAddrNotFound)
            else Ok(HostInfo(hostname, ip, iface.hardwareAddr.value, iface))
  }

  /** getHostInfo: the nested loops over interfaces and their addresses. The
      `break` leaves only the inner loop, so a later matching interface
      replaces an earlier one. */
  method GetHostInfo(env: NetEnv) returns (r: Result<HostInfo>)
    ensures r == HostInfoOf(env)
  {
    if env.hostname.Err? {
      return Err(env.hostname.error);
    }
    var hostname := env.hostname.value;
    if env.outboundIP.Err? {
      return Err(env.outboundIP.error);
    }
    var ipAddr := env.outboundIP.value;
    if env.interfaces.Err? {
      return Err(env.interfaces.error);
    }
    var ifaces := env.interfaces.value;
    var hostIface := Interface(0, "", None);
    var hwAddr: Option<seq<bv8>> := None;
    for i := 0 to |ifaces|
      invariant forall m :: 0 <= m < i ==> ifaces[m].addrs.Ok?
      invariant Scan(ifaces[..i], ipAddr).Ok?
      invariant Scan(ifaces[..i], ipAddr).value.None? ==> hwAddr.None?
      invariant Scan(ifaces[..i], ipAddr).value.Some? ==>
        hostIface == Scan(ifaces[..i], ipAddr).value.value && hwAddr == hostIface.hardwareAddr
    {
      assert ifaces[..i + 1][..i] == ifaces[..i];
      var entry := ifaces[i];
      if entry.addrs.Err? {
        ScanStopsAtFirstError(ifaces, ipAddr, i);
        return Err(entry.addrs.error);
      }
      var addrs := entry.addrs.value;
      ghost var before := (hostIface, hwAddr);
      var j := 0;
      while j < |addrs|
        invariant 0 <= j <= |addrs|
        invariant forall m :: 0 <= m < j ==> AddrIP(addrs[m]) != Some(ipAddr)
        invariant (hostIface, hwAddr) == before
      {
        var ip := AddrIP(addrs[j]);
        if ip == Some(ipAddr) {
          hostIface := entry.iface;
          hwAddr := entry.iface.hardwareAddr;
          break;
        }
        j := j + 1;
      }
    }
    assert ifaces[..|ifaces|] == ifaces;
    if hwAddr.None? {
      return Err(HardwareAddrNotFound);
    }
    return Ok(HostInfo(hostname, ipAddr, hwAddr.value, hostIface));
  }

  lemma {:induction false} ScanWithoutErrorsIsOk(entries: seq<InterfaceEntry>, ip: IP)
    requires forall i :: 0 <= i < |entries| ==> entries[i].addrs.Ok?
    ensures Scan(entries, ip).Ok?
  {
    if entries != [] {
      ScanWithoutErrorsIsOk(entries[..|entries| - 1], ip);
    }
  }

  /** When every Addrs call succeeds, the scan picks the LAST interface, in
      enumeration order, that owns the address, and none when no interface does. */
  lemma {:induction false} ScanPicksLastOwner(entries: seq<InterfaceEntry>, ip: IP)
    requires forall i :: 0 <= i < |entries| ==> entries[i].addrs.Ok?
    ensures Scan(entries, ip).Ok?
    ensures Scan(entries, ip).value.None? <==>
      forall i :: 0 <= i < |entries| ==> !OwnsAddress(entries[i].addrs.value, ip)
    ensures Scan(entries, ip).value.Some? ==>
      exists k :: 0 <= k < |entries| && entries[k].iface == Scan(entries, ip).value.value &&
        OwnsAddress(entries[k].addrs.value, ip) &&
        forall j :: k < j < |entries| ==> !OwnsAddress(entries[j].addrs.value, ip)
  {
    if entries != [] {
      var n := |entries| - 1;
      var init := entries[..n];
      ScanPicksLastOwner(init, ip);
      assert forall i :: 0 <= i < n ==> init[i] == entries[i];
      if !OwnsAddress(entries[n].addrs.value, ip) && Scan(init, ip).value.Some? {
        var k :| 0 <= k < |init| && init[k].iface == Scan(init, ip).value.value &&
          OwnsAddress(init[k].addrs.value, ip) &&
          forall j :: k < j < |init| ==> !OwnsAddress(init[j].addrs.value, ip);
        assert entries[k] == init[k];
      }
    }
  }

  /** The first failing Addrs call ends the scan with its error, whatever the
      interfaces after it. */
  lemma {:induction false} ScanStopsAtFirstError(entries: seq<InterfaceEntry>, ip: IP, k: nat)
    requires k < |entries| && entries[k].addrs.Err?
    requires forall i :: 0 <= i < k ==> entries[i].addrs.Ok?
    ensures Scan(entries, ip) == Err(entries[k].addrs.error)
  {
    var n := |entries| - 1;
    var init := entries[..n];
    if n == k {
      assert forall i :: 0 <= i < |init| ==> init[i] == entries[i];
      ScanWithoutErrorsIsOk(init, ip);
    } else {
      assert init[k] == entries[k];
      assert forall i :: 0 <= i < k ==> init[i] == entries[i];
      ScanStopsAtFirstError(init, ip, k);
    }
  }

  /** The address part of the instance name: the IP text split on '.' and
      joined with "--". It replaces each '.' by "--" and keeps every other
      character, so it contains no '.'. */
  function AddressLabel(ip: IP): (lbl: string)
    ensures lbl == Substitute(ip, '.', "--")
    ensures '.' !in lbl
  {
    JoinSplit(ip, '.', "--");
    Join(Split(ip, '.'), "--")
  }

  /** The mDNS instance name advertiseMDNSService registers: a host name
      without dots gives a name without dots, a single DNS label. */
  function InstanceName(hostName: string, ip: IP): (name: string)
    ensures '.' !in hostName ==> '.' !in name
  {
    hostName + "__" + AddressLabel(ip)
  }

  /** strings.ReplaceAll(t, "--", "."): replaces non-overlapping "--" from the left. */
  function RestoreDots(t: string): string {
    if t == [] then []
    else if |t| >= 2 && t[0] == '-' && t[1] == '-' then "." + RestoreDots(t[2..])
    else [t[0]] + RestoreDots(t[1..])
  }


  lemma {:induction false} SubstituteKeepsAbsent(s: string, c: char, r: string, d: char)
    requires d !in s && d !in r
    ensures d !in Substitute(s, c, r)
  {
    if s != [] {
      SubstituteKeepsAbsent(s[1..], c, r, d);
    }
  }

  lemma {:induction false} RestoreSubstitutedDots(ip: IP)
    requires '-' !in ip
    ensures RestoreDots(Substitute(ip, '.', "--")) == ip
  {
    if ip != [] {
      var tail := Substitute(ip[1..], '.', "--");
      RestoreSubstitutedDots(ip[1..]);
      if ip[0] == '.' {
        assert Substitute(ip, '.', "--") == "--" + tail;
        assert ("--" + tail)[2..] == tail;
      } else {
        var t := [ip[0]] + tail;
        assert Substitute(ip, '.', "--") == t;
        assert t[0] == ip[0] && t[1..] == tail;
      }
      assert ip == [ip[0]] + ip[1..];
    }
  }

  /** Round trip: for IP text without '-', restoring the dots of the address
      part gives back the IP text. */
  lemma AddressLabelRoundTrip(ip: IP)
    requires '-' !in ip
    ensures RestoreDots(AddressLabel(ip)) == ip
  {
    RestoreSubstitutedDots(ip);
  }

  /** The position of the last `c` in `s`, -1 when there is none. */
  function LastIndex(s: string, c: char): int {
    if s == [] then -1
    else if s[|s| - 1] == c then |s| - 1
    else LastIndex(s[..|s| - 1], c)
  }

  lemma {:induction false} LastIndexBeforeTail(x: string, a: string, c: char)
    requires c !in a
    ensures LastIndex(x + [c] + a, c) == |x|
  {
    var s := x + [c] + a;
    if a != [] {
      assert s[|s| - 1] == a[|a| - 1];
      assert s[..|s| - 1] == x + [c] + a[..|a| - 1];
      LastIndexBeforeTail(x, a[..|a| - 1], c);
    }
  }

  /** A string ending in a separator-free tail after a separator splits there uniquely. */
  lemma SplitAtLastSeparator(x: string, a: string, y: string, b: string, c: char)
    requires x + [c] + a == y + [c] + b
    requires c !in a && c !in b
    ensures x == y && a == b
  {
    var s := x + [c] + a;
    LastIndexBeforeTail(x, a, c);
    LastIndexBeforeTail(y, b, c);
    assert x == s[..|x|] && y == s[..|y|];
    assert a == s[|x| + 1..] && b == s[|y| + 1..];
  }

  /** Distinct (host name, IP) pairs get distinct instance names, for IP text
      without '-' or '_' (as the text of an IP address is). */
  lemma InstanceNameInjective(h1: string, ip1: IP, h2: string, ip2: IP)
    requires '-' !in ip1 && '_' !in ip1 && '-' !in ip2 && '_' !in ip2
    requires InstanceName(h1, ip1) == InstanceName(h2, ip2)
    ensures h1 == h2 && ip1 == ip2
  {
    SubstituteKeepsAbsent(ip1, '.', "--", '_');
    SubstituteKeepsAbsent(ip2, '.', "--", '_');
    var l1, l2 := AddressLabel(ip1), AddressLabel(ip2);
    assert (h1 + "_") + ['_'] + l1 == InstanceName(h1, ip1);
    assert (h2 + "_") + ['_'] + l2 == InstanceName(h2, ip2);
    SplitAtLastSeparator(h1 + "_", l1, h2 + "_", l2, '_');
    assert h1 == (h1 + "_")[..|h1|] && h2 == (h2 + "_")[..|h2|];
    AddressLabelRoundTrip(ip1);
    AddressLabelRoundTrip(ip2);
  }

  /** A registered mDNS announcement (*zeroconf.Server). */
  class Server {
    const instance: string
    const service: string
    const domain: string
    const port: int
    const ifaces: seq<Interface>
    var running: bool

    /** zeroconf.Register when it succeeds: the announcement is up. */
    constructor Register(instance: string, service: string, domain: string, port: int, ifaces: seq<Interface>)
      ensures this.instance == instance && this.service == service && this.domain == domain
      ensures this.port == port && this.ifaces == ifaces && running
    {
      this.instance, this.service, this.domain, this.port, this.ifaces := instance, service, domain, port, ifaces;
      running := true;
    }

    /** Withdraws the announcement; harmless when it is already withdrawn. */
    method Shutdown()
      modifies this
      ensures !running
    {
      running := false;
    }
  }

  /** The server announces `host`: named from its host name and IP, on its interface. */
  predicate Announces(s: Server, host: HostInfo) {
    && s.instance == InstanceName(host.hostName, host.ipAddr)
    && s.service == ServiceType && s.domain == ServiceDomain && s.port == ServicePort
    && s.ifaces == [host.iface]
  }

  /** The parts of `application` the advertiser uses: the cached host record
      and the live announcement handle. */
  class Application {
    var hostInfo: HostInfo
    var mDNSSvc: Server?

    constructor (hostInfo: HostInfo)
      ensures this.hostInfo == hostInfo && mDNSSvc == null
    {
      this.hostInfo := hostInfo;
      mDNSSvc := null;
    }

    /** updateHostInfo: on a resolution error the cached record stays; otherwise
        it is replaced wholesale, but only when the IP differs. */
    method UpdateHostInfo(env: NetEnv) returns (r: Outcome)
      modifies this`hostInfo
      ensures HostInfoOf(env).Err? ==> r == Fail(HostInfoOf(env).error) && hostInfo == old(hostInfo)
      ensures HostInfoOf(env).Ok? ==>
        && r == Pass
        && hostInfo == if old(hostInfo).ipAddr != HostInfoOf(env).value.ipAddr then HostInfoOf(env).value else old(hostInfo)
    {
      var resolved := GetHostInfo(env);
      if resolved.Err? {
        return Fail(resolved.error);
      }
      if hostInfo.ipAddr != resolved.value.ipAddr {
        hostInfo := resolved.value;
      }
      return Pass;
    }

    /** advertiseMDNSService: registers "<host>__<address label>" for the
        "_iw._tcp" service in "local." on port 9876 and the host's interface. */
    method AdvertiseMDNSService(registerOk: bool) returns (r: Result<Server>)
      ensures !registerOk ==> r == Err(RegisterError)
      ensures registerOk ==> r.Ok? && fresh(r.value) && r.value.running && Announces(r.value, hostInfo)
    {
      var instance := InstanceName(hostInfo.hostName, hostInfo.ipAddr);
      if !registerOk {
        return Err(RegisterError);
      }
      var srv := new Server.Register(instance, ServiceType, ServiceDomain, ServicePort, [hostInfo.iface]);
      return Ok(srv);
    }

    /** refreshMDNSService: refresh the host record, shut the announcement
        down, wait (a no-op here), re-register and swap in the new handle. */
    method RefreshMDNSService(env: NetEnv, registerOk: bool) returns (r: Outcome)
      modifies this, mDNSSvc
      ensures HostInfoOf(env).Err? ==>
        && r == Fail(HostInfoOf(env).error)
        && hostInfo == old(hostInfo) && mDNSSvc == old(mDNSSvc)
        && (mDNSSvc != null ==> mDNSSvc.running == old(mDNSSvc.running))
      ensures HostInfoOf(env).Ok? ==>
        hostInfo == if old(hostInfo).ipAddr != HostInfoOf(env).value.ipAddr then HostInfoOf(env).value else old(hostInfo)
      ensures HostInfoOf(env).Ok? && old(mDNSSvc) == null ==> r == Fail(NilServerPanic) && mDNSSvc == null
      ensures HostInfoOf(env).Ok? && old(mDNSSvc) != null ==> !old(mDNSSvc).running
      ensures HostInfoOf(env).Ok? && old(mDNSSvc) != null && !registerOk ==>
        r == Fail(RegisterError) && mDNSSvc == old(mDNSSvc)
      ensures HostInfoOf(env).Ok? && old(mDNSSvc) != null && registerOk ==>
        r == Pass && mDNSSvc != null && fresh(mDNSSvc) && mDNSSvc.running && Announces(mDNSSvc, hostInfo)
    {
      var updated := UpdateHostInfo(env);
      if updated.Fail? {
        return updated;
      }
      if mDNSSvc == null {
        return Fail(NilServerPanic);
      }
      mDNSSvc.Shutdown();
      var svc := AdvertiseMDNSService(registerOk);
      if svc.Err? {
        return Fail(svc.error);
      }
      mDNSSvc := svc.value;
      return Pass;
    }
  }
}
