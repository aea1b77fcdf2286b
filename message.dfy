/**
 * The message layer's shared pieces: message kinds, the multicast
 * configuration and its builder, and the choice of local addresses to
 * open connectors on.
 */
module Message {
  import opened Wrappers
  import opened Octets

  const UPNP_MULTICAST_IPV4_ADDR: string := "239.255.255.250"
  const UPNP_MULTICAST_IPV6_LINK_LOCAL_ADDR: string := "FF05::C"
  const UPNP_MULTICAST_PORT: u16 := 1900

  /** The default multicast time-to-live. */
  const UPNP_MULTICAST_TTL: u32 := 2

  datatype MessageType = Notify | Search | Response

  /** Which IP versions connectors are opened for. */
  datatype IpVersionMode = V4Only | V6Only | Any

  datatype Config = Config(ipv4Addr: string, ipv6Addr: string, port: u16, ttl: u32, mode: IpVersionMode)

  /** `Config::default` (and `Config::new`): the SSDP multicast groups and port, TTL 2, both IP versions. */
  function DefaultConfig(): (c: Config)
    ensures c.ipv4Addr == UPNP_MULTICAST_IPV4_ADDR && c.ipv6Addr == UPNP_MULTICAST_IPV6_LINK_LOCAL_ADDR
    ensures c.port == 1900 && c.ttl == 2 && c.mode == Any
  {
    Config(UPNP_MULTICAST_IPV4_ADDR, UPNP_MULTICAST_IPV6_LINK_LOCAL_ADDR, UPNP_MULTICAST_PORT, UPNP_MULTICAST_TTL, Any)
  }

  // The by-value builder setters: each replaces one field.

  function SetIpv4Addr(c: Config, value: string): Config {
    c.(ipv4Addr := value)
  }

  function SetIpv6Addr(c: Config, value: string): Config {
    c.(ipv6Addr := value)
  }

  function SetPort(c: Config, value: u16): Config {
    c.(port := value)
  }

  function SetTtl(c: Config, value: u32): Config {
    c.(ttl := value)
  }

  function SetMode(c: Config, value: IpVersionMode): Config {
    c.(mode := value)
  }

  /** A configuration described field by field, to state what each setter leaves alone. */
  predicate Fields(c: Config, ipv4Addr: string, ipv6Addr: string, port: u16, ttl: u32, mode: IpVersionMode) {
    c.ipv4Addr == ipv4Addr && c.ipv6Addr == ipv6Addr && c.port == port && c.ttl == ttl && c.mode == mode
  }

  /** Each setter changes exactly its own field; the other four keep their values. */
  lemma SettersChangeOneField(c: Config, a4: string, a6: string, p: u16, t: u32, m: IpVersionMode)
    ensures Fields(SetIpv4Addr(c, a4), a4, c.ipv6Addr, c.port, c.ttl, c.mode)
    ensures Fields(SetIpv6Addr(c, a6), c.ipv4Addr, a6, c.port, c.ttl, c.mode)
    ensures Fields(SetPort(c, p), c.ipv4Addr, c.ipv6Addr, p, c.ttl, c.mode)
    ensures Fields(SetTtl(c, t), c.ipv4Addr, c.ipv6Addr, c.port, t, c.mode)
    ensures Fields(SetMode(c, m), c.ipv4Addr, c.ipv6Addr, c.port, c.ttl, m)
  {
  }

  /** Setting every field builds the configuration with those fields, whatever it started from. */
  lemma SettersBuild(c: Config, a4: string, a6: string, p: u16, t: u32, m: IpVersionMode)
    ensures SetMode(SetTtl(SetPort(SetIpv6Addr(SetIpv4Addr(c, a4), a6), p), t), m) == Config(a4, a6, p, t, m)
  {
  }

  // ---- Addresses ----

  type Quad = s: seq<u8> | |s| == 4 witness [0, 0, 0, 0]

  /** An IPv4 address as its four octets. */
  datatype Ipv4Addr = Ipv4Addr(octets: Quad)

  type Segments = s: seq<bv16> | |s| == 8 witness [0, 0, 0, 0, 0, 0, 0, 0]

  /** An IPv6 address as its eight 16-bit segments. */
  datatype Ipv6Addr = Ipv6Addr(segments: Segments)

  datatype IpAddr = V4(v4: Ipv4Addr) | V6(v6: Ipv6Addr)

  /** An address of a local interface, with the interface's index. */
  datatype NetifAddr = NetifAddr(sock: IpAddr, index: u32)

  /** A network interface as the system lists it. */
  datatype Interface = Interface(index: u32, ipv4: seq<Ipv4Addr>, ipv6: seq<Ipv6Addr>)

  /** `Ipv4Addr::is_loopback`: 127.0.0.0/8. */
  predicate IsLoopbackV4(a: Ipv4Addr) {
    a.octets[0] == 127
  }

  /** `Ipv6Addr::is_unspecified`: `::`. */
  predicate IsUnspecified(a: Ipv6Addr) {
    forall i :: 0 <= i < 8 ==> a.segments[i] == 0
  }

  /** `Ipv6Addr::is_loopback`: `::1`. */
  predicate IsLoopbackV6(a: Ipv6Addr) {
    (forall i :: 0 <= i < 7 ==> a.segments[i] == 0) && a.segments[7] == 1
  }

  /** `Ipv6Addr::is_unique_local`, written as the standard library does, with a mask. */
  predicate IsUniqueLocal(a: Ipv6Addr) {
    a.segments[0] & 0xfe00 == 0xfc00
  }

  /** Everything in 2002::/16. */
  predicate Is6to4(a: Ipv6Addr) {
    a.segments[0] == 0x2002
  }

  /**
   * `is_not_global_v6`: an under-approximation of the addresses that are
   * not globally reachable.
   */
  predicate IsNotGlobalV6(a: Ipv6Addr) {
    IsUnspecified(a) || IsLoopbackV6(a) || IsUniqueLocal(a) || Is6to4(a)
  }

  /** The unique-local mask test is the prefix fc00::/7 of section 3.1 of RFC 4193. */
  lemma UniqueLocalIsPrefix(a: Ipv6Addr)
    ensures IsUniqueLocal(a) <==> 0xfc00 <= a.segments[0] as int < 0xfe00
  {
    var s := a.segments[0];
    if 0xfc00 <= s as int < 0xfe00 {
      assert 0xfc00 <= s < 0xfe00;
    }
  }

  /**
   * The classifier holds exactly for `::`, `::1`, fc00::/7 (section 3.1 of
   * RFC 4193) and 2002::/16 (section 2 of RFC 3056).
   */
  lemma NotGlobalV6Exactly(a: Ipv6Addr)
    ensures IsNotGlobalV6(a) <==>
      || a.segments == [0, 0, 0, 0, 0, 0, 0, 0]
      || a.segments == [0, 0, 0, 0, 0, 0, 0, 1]
      || 0xfc00 <= a.segments[0] as int < 0xfe00
      || a.segments[0] == 0x2002
  {
    UniqueLocalIsPrefix(a);
    var s := a.segments;
    assert IsUnspecified(a) <==> s == [0, 0, 0, 0, 0, 0, 0, 0] by {
      if IsUnspecified(a) {
        assert s == [s[0], s[1], s[2], s[3], s[4], s[5], s[6], s[7]];
      }
    }
    assert IsLoopbackV6(a) <==> s == [0, 0, 0, 0, 0, 0, 0, 1] by {
      if IsLoopbackV6(a) {
        assert s == [s[0], s[1], s[2], s[3], s[4], s[5], s[6], s[7]];
      }
    }
  }

  /** Link-local fe80::/10 and documentation 2001:db8::/32 are taken as global; fd00::1 is not. */
  lemma NotGlobalV6Vectors()
    ensures !IsNotGlobalV6(Ipv6Addr([0xfe80, 0, 0, 0, 0, 0, 0, 1]))
    ensures !IsNotGlobalV6(Ipv6Addr([0x2001, 0xdb8, 0, 0, 0, 0, 0, 1]))
    ensures IsNotGlobalV6(Ipv6Addr([0xfd00, 0, 0, 0, 0, 0, 0, 1]))
    ensures IsNotGlobalV6(Ipv6Addr([0x2002, 0xc000, 0x0204, 0, 0, 0, 0, 1]))
  {
    NotGlobalV6Exactly(Ipv6Addr([0xfe80, 0, 0, 0, 0, 0, 0, 1]));
    NotGlobalV6Exactly(Ipv6Addr([0x2001, 0xdb8, 0, 0, 0, 0, 0, 1]));
    NotGlobalV6Exactly(Ipv6Addr([0xfd00, 0, 0, 0, 0, 0, 0, 1]));
  }

  // ---- Local addresses ----

  /** One interface's addresses: its IPv4 addresses, then its IPv6 ones, all tagged with its index. */
  function InterfaceAddrs(iface: Interface): (r: seq<NetifAddr>)
    ensures |r| == |iface.ipv4| + |iface.ipv6|
    ensures forall j :: 0 <= j < |iface.ipv4| ==> r[j] == NetifAddr(V4(iface.ipv4[j]), iface.index)
    ensures forall j :: 0 <= j < |iface.ipv6| ==> r[|iface.ipv4| + j] == NetifAddr(V6(iface.ipv6[j]), iface.index)
  {
    seq(|iface.ipv4|, j requires 0 <= j < |iface.ipv4| => NetifAddr(V4(iface.ipv4[j]), iface.index))
    + seq(|iface.ipv6|, j requires 0 <= j < |iface.ipv6| => NetifAddr(V6(iface.ipv6[j]), iface.index))
  }

  /** `get_local_addrs`: the addresses of every interface, interface by interface. */
  function GetLocalAddrs(ifaces: seq<Interface>): seq<NetifAddr> {
    if ifaces == [] then [] else InterfaceAddrs(ifaces[0]) + GetLocalAddrs(ifaces[1..])
  }

  /** An address is listed exactly when one of the interfaces has it, under that interface's index. */
  lemma {:induction false} LocalAddrsMembers(ifaces: seq<Interface>, a: NetifAddr)
    ensures a in GetLocalAddrs(ifaces) <==> exists k :: 0 <= k < |ifaces| && a in InterfaceAddrs(ifaces[k])
  {
    if ifaces != [] {
      LocalAddrsMembers(ifaces[1..], a);
      if a in GetLocalAddrs(ifaces[1..]) {
        var k :| 0 <= k < |ifaces[1..]| && a in InterfaceAddrs(ifaces[1..][k]);
        assert a in InterfaceAddrs(ifaces[k + 1]);
      }
      if exists k :: 0 <= k < |ifaces| && a in InterfaceAddrs(ifaces[k]) {
        var k :| 0 <= k < |ifaces| && a in InterfaceAddrs(ifaces[k]);
        if k > 0 {
          assert ifaces[1..][k - 1] == ifaces[k];
        }
      }
    }
  }

  /** The addresses of the interfaces in order: those of the first i, then interface i's own. */
  lemma {:induction false} LocalAddrsSnoc(ifaces: seq<Interface>, i: nat)
    requires i < |ifaces|
    ensures GetLocalAddrs(ifaces[..i + 1]) == GetLocalAddrs(ifaces[..i]) + InterfaceAddrs(ifaces[i])
  {
    if i == 0 {
      assert ifaces[..1] == [ifaces[0]];
      assert GetLocalAddrs([ifaces[0]]) == InterfaceAddrs(ifaces[0]) + GetLocalAddrs([]);
    } else {
      var tail := ifaces[1..];
      LocalAddrsSnoc(tail, i - 1);
      assert ifaces[..i + 1][1..] == tail[..i];
      assert ifaces[..i][1..] == tail[..i - 1];
    }
  }

  // ---- Address filtering ----

  /** The addresses `map_local` hands to its callback: IPv4 but not loopback, IPv6 neither loopback nor global. */
  predicate Passes(a: NetifAddr) {
    match a.sock
    case V4(n) => !IsLoopbackV4(n)
    case V6(n) => !IsLoopbackV6(n) && IsNotGlobalV6(n)
  }

  /** `::1` is never handed on, although the classifier counts it as not global. */
  lemma LoopbackV6Dropped(index: u32)
    ensures IsNotGlobalV6(Ipv6Addr([0, 0, 0, 0, 0, 0, 0, 1]))
    ensures !Passes(NetifAddr(V6(Ipv6Addr([0, 0, 0, 0, 0, 0, 0, 1])), index))
  {
    NotGlobalV6Exactly(Ipv6Addr([0, 0, 0, 0, 0, 0, 0, 1]));
  }

  /** The addresses that pass the filter, in their order. */
  function Filtered(addrs: seq<NetifAddr>): seq<NetifAddr> {
    if addrs == [] then []
    else if Passes(addrs[0]) then [addrs[0]] + Filtered(addrs[1..])
    else Filtered(addrs[1..])
  }

  /** Feeding addresses to the callback one by one: the `Some` results in order, or the first error. */
  function Collect<R, E>(addrs: seq<NetifAddr>, f: NetifAddr -> Result<Option<R>, E>): Result<seq<R>, E> {
    if addrs == [] then Ok([])
    else match f(addrs[0])
      case Err(e) => Err(e)
      case Ok(None) => Collect(addrs[1..], f)
      case Ok(Some(x)) => Prepend(x, Collect(addrs[1..], f))
  }

  function Prepend<R, E>(x: R, r: Result<seq<R>, E>): Result<seq<R>, E> {
    match r
    case Ok(xs) => Ok([x] + xs)
    case Err(e) => Err(e)
  }

  /** `map_local`'s result: the callback applied in order to the addresses that pass the filter. */
  function MapLocalResult<R, E>(addrs: seq<NetifAddr>, f: NetifAddr -> Result<Option<R>, E>): Result<seq<R>, E> {
    Collect(Filtered(addrs), f)
  }

  /** An address is handed on exactly when it is listed and passes the filter. */
  lemma {:induction false} FilteredMembers(addrs: seq<NetifAddr>, a: NetifAddr)
    ensures a in Filtered(addrs) <==> a in addrs && Passes(a)
  {
    if addrs != [] {
      FilteredMembers(addrs[1..], a);
      assert addrs == [addrs[0]] + addrs[1..];
    }
  }

  /** The collection fails exactly when the callback fails on one of the addresses. */
  lemma {:induction false} CollectOk<R, E>(addrs: seq<NetifAddr>, f: NetifAddr -> Result<Option<R>, E>)
    ensures Collect(addrs, f).Ok? <==> forall j :: 0 <= j < |addrs| ==> f(addrs[j]).Ok?
  {
    if addrs != [] {
      CollectOk(addrs[1..], f);
      assert forall j :: 1 <= j < |addrs| ==> addrs[j] == addrs[1..][j - 1];
    }
  }

  /** A failed collection reports the error of the first address the callback fails on. */
  lemma {:induction false} CollectFirstError<R, E>(addrs: seq<NetifAddr>, f: NetifAddr -> Result<Option<R>, E>)
    requires Collect(addrs, f).Err?
    ensures exists i :: 0 <= i < |addrs| && f(addrs[i]) == Err(Collect(addrs, f).error)
                        && forall j :: 0 <= j < i ==> f(addrs[j]).Ok?
  {
    if f(addrs[0]).Err? {
      assert f(addrs[0]) == Err(Collect(addrs, f).error);
    } else {
      CollectFirstError(addrs[1..], f);
      var i :| 0 <= i < |addrs[1..]| && f(addrs[1..][i]) == Err(Collect(addrs[1..], f).error)
               && forall j :: 0 <= j < i ==> f(addrs[1..][j]).Ok?;
      assert f(addrs[i + 1]) == Err(Collect(addrs, f).error);
      forall j | 0 <= j < i + 1
        ensures f(addrs[j]).Ok?
      {
        if j > 0 {
          assert addrs[j] == addrs[1..][j - 1];
        }
      }
    }
  }

  /** The callback's results kept on success: as many as there were `Some`s, each the callback's value. */
  lemma {:induction false} CollectKeeps<R, E>(addrs: seq<NetifAddr>, f: NetifAddr -> Result<Option<R>, E>)
    requires Collect(addrs, f).Ok?
    ensures |Collect(addrs, f).value| <= |addrs|
    ensures forall x :: x in Collect(addrs, f).value ==> exists j :: 0 <= j < |addrs| && f(addrs[j]) == Ok(Some(x))
  {
    if addrs != [] {
      CollectKeeps(addrs[1..], f);
      var rest := Collect(addrs[1..], f).value;
      forall x | x in Collect(addrs, f).value
        ensures exists j :: 0 <= j < |addrs| && f(addrs[j]) == Ok(Some(x))
      {
        if x in rest {
          var j :| 0 <= j < |addrs[1..]| && f(addrs[1..][j]) == Ok(Some(x));
          assert f(addrs[j + 1]) == Ok(Some(x));
        } else {
          assert f(addrs[0]) == Ok(Some(x));
        }
      }
    }
  }

  /**
   * idx picks, for each kept result in turn, an address the callback kept
   * it for, at strictly increasing positions.
   */
  ghost predicate KeptAt<R, E>(addrs: seq<NetifAddr>, f: NetifAddr -> Result<Option<R>, E>, xs: seq<R>, idx: seq<nat>) {
    && |idx| == |xs|
    && (forall k :: 0 <= k < |idx| ==> idx[k] < |addrs| && f(addrs[idx[k]]) == Ok(Some(xs[k])))
    && (forall k :: 0 <= k < |idx| - 1 ==> idx[k] < idx[k + 1])
  }

  /** Positions picked in the tail of a list, moved one along, are picked in the whole list. */
  lemma KeptShift<R, E>(addrs: seq<NetifAddr>, f: NetifAddr -> Result<Option<R>, E>, xs: seq<R>, inner: seq<nat>)
    requires addrs != [] && KeptAt(addrs[1..], f, xs, inner)
    ensures KeptAt(addrs, f, xs, seq(|inner|, k requires 0 <= k < |inner| => inner[k] + 1))
  {
    var shifted := seq(|inner|, k requires 0 <= k < |inner| => inner[k] + 1);
    forall k | 0 <= k < |shifted|
      ensures shifted[k] < |addrs| && f(addrs[shifted[k]]) == Ok(Some(xs[k]))
    {
      assert addrs[shifted[k]] == addrs[1..][inner[k]];
    }
  }

  /** A kept first result goes in front at position 0. */
  lemma KeptCons<R, E>(addrs: seq<NetifAddr>, f: NetifAddr -> Result<Option<R>, E>, x: R, xs: seq<R>, idx: seq<nat>)
    requires addrs != [] && f(addrs[0]) == Ok(Some(x)) && KeptAt(addrs, f, xs, idx)
    requires forall k :: 0 <= k < |idx| ==> idx[k] > 0
    ensures KeptAt(addrs, f, [x] + xs, [0] + idx)
  {
  }

  /** The kept results follow the order of the addresses they came from. */
  lemma {:induction false} CollectInOrder<R, E>(addrs: seq<NetifAddr>, f: NetifAddr -> Result<Option<R>, E>)
    requires Collect(addrs, f).Ok?
    ensures exists idx :: KeptAt(addrs, f, Collect(addrs, f).value, idx)
  {
    if addrs == [] {
      assert KeptAt(addrs, f, [], []);
    } else {
      CollectInOrder(addrs[1..], f);
      var rest := Collect(addrs[1..], f).value;
      var inner :| KeptAt(addrs[1..], f, rest, inner);
      KeptShift(addrs, f, rest, inner);
      var shifted := seq(|inner|, k requires 0 <= k < |inner| => inner[k] + 1);
      if f(addrs[0]).Ok? && f(addrs[0]).value.Some? {
        var x := f(addrs[0]).value.value;
        KeptCons(addrs, f, x, rest, shifted);
        assert Collect(addrs, f).value == [x] + rest;
      }
    }
  }

  /**
   * `map_local`: walks the addresses, calls f on each one that passes the
   * filter, keeps its `Some` results in order and stops at f's first error.
   */
  method MapLocal<R, E>(ifaces: seq<Interface>, f: NetifAddr -> Result<Option<R>, E>) returns (r: Result<seq<R>, E>)
    ensures r == MapLocalResult(GetLocalAddrs(ifaces), f)
  {
    var addrs := GetLocalAddrs(ifaces);
    var objList: seq<R> := [];
    var i := 0;
    assert addrs[i..] == addrs;
    assert PrependAll(objList, MapLocalResult(addrs, f)) == MapLocalResult(addrs, f) by {
      if MapLocalResult(addrs, f).Ok? {
        assert [] + MapLocalResult(addrs, f).value == MapLocalResult(addrs, f).value;
      }
    }
    while i < |addrs|
      invariant 0 <= i <= |addrs|
      invariant MapLocalResult(addrs, f) == PrependAll(objList, MapLocalResult(addrs[i..], f))
    {
      var addr := addrs[i];
      assert addrs[i..][0] == addr && addrs[i..][1..] == addrs[i + 1..];
      if Passes(addr) {
        var x := f(addr);
        match x
        case Err(e) =>
          return Err(e);
        case Ok(None) =>
        case Ok(Some(y)) =>
          PrependAllSnoc(objList, y, MapLocalResult(addrs[i + 1..], f));
          objList := objList + [y];
      }
      i := i + 1;
    }
    assert MapLocalResult(addrs[i..], f) == Ok([]);
    assert objList + [] == objList;
    r := Ok(objList);
  }

  function PrependAll<R, E>(xs: seq<R>, r: Result<seq<R>, E>): Result<seq<R>, E> {
    match r
    case Ok(ys) => Ok(xs + ys)
    case Err(e) => Err(e)
  }

  lemma PrependAllSnoc<R, E>(xs: seq<R>, y: R, r: Result<seq<R>, E>)
    ensures PrependAll(xs, Prepend(y, r)) == PrependAll(xs + [y], r)
  {
    if r.Ok? {
      assert xs + ([y] + r.value) == (xs + [y]) + r.value;
    }
  }

  // ---- Connectors ----

  /** The addresses a mode opens connectors on: IPv4 unless V6Only, IPv6 unless V4Only. */
  predicate Admits(mode: IpVersionMode, sock: IpAddr) {
    (sock.V4? && mode != V6Only) || (sock.V6? && mode != V4Only)
  }

  /**
   * The callback of `all_local_connectors`: binds a connector on addresses
   * of an admitted version and skips the others. `bind` stands for
   * `UdpConnector::new`.
   */
  function Connect<C, E>(mode: IpVersionMode, ttl: Option<u32>, bind: (IpAddr, u32, Option<u32>) -> Result<C, E>, a: NetifAddr)
    : Result<Option<C>, E>
  {
    match (mode, a.sock)
    case (V4Only, V4(_)) => BindSome(bind, a, ttl)
    case (Any, V4(_)) => BindSome(bind, a, ttl)
    case (V6Only, V6(_)) => BindSome(bind, a, ttl)
    case (Any, V6(_)) => BindSome(bind, a, ttl)
    case _ => Ok(None)
  }

  function BindSome<C, E>(bind: (IpAddr, u32, Option<u32>) -> Result<C, E>, a: NetifAddr, ttl: Option<u32>): Result<Option<C>, E> {
    match bind(a.sock, a.index, ttl)
    case Ok(c) => Ok(Some(c))
    case Err(e) => Err(e)
  }

  /** The mode filter: an address is skipped exactly when the mode does not admit its version. */
  lemma ConnectFilter<C, E>(mode: IpVersionMode, ttl: Option<u32>, bind: (IpAddr, u32, Option<u32>) -> Result<C, E>, a: NetifAddr)
    ensures !Admits(mode, a.sock) ==> Connect(mode, ttl, bind, a) == Ok(None)
    ensures Admits(mode, a.sock) ==> Connect(mode, ttl, bind, a) == BindSome(bind, a, ttl)
  {
  }

  /** `all_local_connectors`: a connector on every filtered local address the mode admits. */
  method AllLocalConnectors<C, E>(ifaces: seq<Interface>, ttl: Option<u32>, mode: IpVersionMode,
                                  bind: (IpAddr, u32, Option<u32>) -> Result<C, E>)
      returns (r: Result<seq<C>, E>)
    ensures r == MapLocalResult(GetLocalAddrs(ifaces), a => Connect(mode, ttl, bind, a))
  {
    r := MapLocal(ifaces, a => Connect(mode, ttl, bind, a));
  }
}
