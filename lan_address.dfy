/**
 * How the server tells clients where to reach it (app.py): `get_local_ip`
 * picks a LAN address from the machine's candidates, and `/api/ip` reads the
 * address and port out of the request's `Host` header.
 *
 * The environment variables, the routing probe, the resolver results and the
 * cached LAN address are parameters.
 */
module LanAddress {
  import opened Wrappers
  import opened Text

  /** Python's `a or b` on two optional strings: `a` when it is a non-empty string, else `b`. */
  function PyOr(a: Option<string>, b: Option<string>): (r: Option<string>)
    ensures r == a || r == b
    ensures (a.Some? && a.value != "") ==> r == a
  {
    if a.Some? && a.value != "" then a else b
  }

  /** A value Python treats as true: present and non-empty. */
  predicate Truthy(s: Option<string>) {
    s.Some? && s.value != ""
  }

  /** The address classes `get_local_ip` sorts candidates into, in priority order after `Dropped`. */
  datatype Bucket = Dropped | Private192 | Private10 | Private172 | Other

  function Rank(b: Bucket): nat {
    match b
    case Dropped => 4
    case Private192 => 0
    case Private10 => 1
    case Private172 => 2
    case Other => 3
  }

  /** The text before the first `c`, or all of `s` (`s.split(c)[0]`). */
  function Before(s: string, c: char): (r: string)
    ensures |r| <= |s| && r == s[..|r|] && c !in r
    ensures |r| == |s| || s[|r|] == c
  {
    if s == [] || s[0] == c then [] else [s[0]] + Before(s[1..], c)
  }

  /** The text after the first `c`, if there is one. */
  function After(s: string, c: char): (r: Option<string>)
    ensures r.None? <==> c !in s
    ensures r.Some? ==> |Before(s, c)| < |s| && r.value == s[|Before(s, c)| + 1..]
  {
    var b := Before(s, c);
    if |b| == |s| then None else Some(s[|b| + 1..])
  }

  /** `s.find(c)`: the index of the first `c`, if any. */
  function Find(s: string, c: char): (r: Option<nat>)
    ensures r.None? <==> c !in s
    ensures r.Some? ==> r.value < |s| && s[r.value] == c && c !in s[..r.value]
  {
    var b := Before(s, c);
    if |b| == |s| then None else Some(|b|)
  }

  /** The second dot-separated field of an address, `ip.split('.')[1]`, when there is one. */
  function SecondField(ip: string): Option<string> {
    match After(ip, '.')
    case None => None
    case Some(rest) => Some(Before(rest, '.'))
  }

  /** The class of one candidate address, branch by branch as `get_local_ip` tests them. */
  function Classify(ip: string): Bucket {
    if StartsWith(ip, "127.") || StartsWith(ip, "169.254.") then Dropped
    else if StartsWith(ip, "198.18.") then Dropped
    else if StartsWith(ip, "192.168.") then Private192
    else if StartsWith(ip, "10.") then Private10
    else if StartsWith(ip, "172.") then Class172(SecondField(ip))
    else Other
  }

  /** The class of a `172.` address by its second field: private when it is an integer in 16..31. */
  function Class172(field: Option<string>): Bucket {
    match field
    case None => Other
    case Some(f) =>
      match PyInt(f)
      case Some(octet) => if 16 <= octet <= 31 then Private172 else Other
      case None => Other
  }

  /** The candidates of one class, in candidate order. */
  function InBucket(cands: seq<string>, b: Bucket): (r: seq<string>)
    ensures forall x :: x in r ==> x in cands && Classify(x) == b
  {
    Select(cands, Classify, b)
  }

  /** The candidates that `classOf` puts in class `b`, in candidate order. */
  function Select(cands: seq<string>, classOf: string -> Bucket, b: Bucket): (r: seq<string>)
    ensures forall x :: x in r ==> x in cands && classOf(x) == b
  {
    if cands == [] then []
    else
      var last := cands[|cands| - 1];
      Select(cands[..|cands| - 1], classOf, b) + if classOf(last) == b then [last] else []
  }

  /** The address `get_local_ip` settles on for a candidate list. */
  function Choice(cands: seq<string>): string {
    if InBucket(cands, Private192) != [] then InBucket(cands, Private192)[0]
    else if InBucket(cands, Private10) != [] then InBucket(cands, Private10)[0]
    else if InBucket(cands, Private172) != [] then InBucket(cands, Private172)[0]
    else if InBucket(cands, Other) != [] then InBucket(cands, Other)[0]
    else "127.0.0.1"
  }

  /** The bucket loop and the priority pass of `get_local_ip`. */
  method PrioritizeCandidates(cands: seq<string>) returns (ip: string)
    ensures ip == Choice(cands)
  {
    var b192: seq<string> := [];
    var b10: seq<string> := [];
    var b172: seq<string> := [];
    var other: seq<string> := [];
    var i := 0;
    while i < |cands|
      invariant 0 <= i <= |cands|
      invariant b192 == InBucket(cands[..i], Private192) && b10 == InBucket(cands[..i], Private10)
      invariant b172 == InBucket(cands[..i], Private172) && other == InBucket(cands[..i], Other)
    {
      var c := cands[i];
      assert cands[..i + 1][..i] == cands[..i];
      var bucket := Classify(c);
      if bucket == Private192 {
        b192 := b192 + [c];
      } else if bucket == Private10 {
        b10 := b10 + [c];
      } else if bucket == Private172 {
        b172 := b172 + [c];
      } else if bucket == Other {
        other := other + [c];
      }
      i := i + 1;
    }
    assert cands[..|cands|] == cands;
    if |b192| > 0 {
      ip := b192[0];
    } else if |b10| > 0 {
      ip := b10[0];
    } else if |b172| > 0 {
      ip := b172[0];
    } else if |other| > 0 {
      ip := other[0];
    } else {
      ip := "127.0.0.1";
    }
  }

  /** The first element of a class list is the first candidate of that class, found at index `i`. */
  lemma InBucketFirst(cands: seq<string>, b: Bucket) returns (i: nat)
    ensures InBucket(cands, b) == [] <==> forall k :: 0 <= k < |cands| ==> Classify(cands[k]) != b
    ensures InBucket(cands, b) != [] ==>
      i < |cands| && cands[i] == InBucket(cands, b)[0] && Classify(cands[i]) == b
      && forall j :: 0 <= j < i ==> Classify(cands[j]) != b
  {
    i := SelectFirst(cands, Classify, b);
  }

  lemma {:induction false} SelectFirst(cands: seq<string>, classOf: string -> Bucket, b: Bucket) returns (i: nat)
    ensures Select(cands, classOf, b) == [] <==> forall k :: 0 <= k < |cands| ==> classOf(cands[k]) != b
    ensures Select(cands, classOf, b) != [] ==>
      i < |cands| && cands[i] == Select(cands, classOf, b)[0] && classOf(cands[i]) == b
      && forall j :: 0 <= j < i ==> classOf(cands[j]) != b
  {
    i := 0;
    if cands != [] {
      var n := |cands|;
      var init, last := cands[..n - 1], cands[n - 1];
      assert Select(cands, classOf, b) == Select(init, classOf, b) + if classOf(last) == b then [last] else [];
      i := SelectFirst(init, classOf, b);
      if Select(init, classOf, b) == [] {
        i := n - 1;
        forall k | 0 <= k < n - 1 ensures classOf(cands[k]) != b {
          assert cands[k] == init[k];
        }
      } else {
        assert cands[i] == init[i];
        forall j | 0 <= j < i ensures classOf(cands[j]) != b {
          assert cands[j] == init[j];
        }
      }
    }
  }

  /**
   * The choice is the first candidate of the best class present (192.168,
   * then 10, then 172.16-31, then any other kept address), and the loopback
   * fallback exactly when every candidate is dropped.
   */
  lemma ChoiceIsBest(cands: seq<string>) returns (i: nat)
    ensures var ip := Choice(cands);
      ip == "127.0.0.1" <==> forall k :: 0 <= k < |cands| ==> Classify(cands[k]) == Dropped
    ensures var ip := Choice(cands);
      ip != "127.0.0.1" ==>
        i < |cands| && cands[i] == ip && Classify(ip) != Dropped
        && (forall j :: 0 <= j < |cands| && Classify(cands[j]) != Dropped ==> Rank(Classify(ip)) <= Rank(Classify(cands[j])))
        && (forall j :: 0 <= j < i ==> Classify(cands[j]) != Classify(ip))
  {
    var i192 := InBucketFirst(cands, Private192);
    var i10 := InBucketFirst(cands, Private10);
    var i172 := InBucketFirst(cands, Private172);
    var iOther := InBucketFirst(cands, Other);
    assert "127.0.0.1"[..4] == "127.";
    forall k | 0 <= k < |cands| && Classify(cands[k]) != Dropped ensures cands[k] != "127.0.0.1" {
      if cands[k] == "127.0.0.1" {
        assert StartsWith(cands[k], "127.");
      }
    }
    i := if InBucket(cands, Private192) != [] then i192
      else if InBucket(cands, Private10) != [] then i10
      else if InBucket(cands, Private172) != [] then i172
      else iOther;
  }

  /** An address `172.<o>.…` with a decimal second field in 16..31 is in the 172 class. */
  lemma Private172Range(octet: nat, rest: string)
    requires 16 <= octet <= 31
    ensures Classify("172." + NatToDecimal(octet) + "." + rest) == Private172
  {
    DecimalHasNo(octet, '.');
    PyIntOfDecimal(octet);
    Field172(NatToDecimal(octet), rest);
  }

  /** A `172.` address whose second field is `d` is classified by `d`. */
  lemma Field172(d: string, rest: string)
    requires '.' !in d
    ensures Classify("172." + d + "." + rest) == Class172(Some(d))
  {
    var ip := "172." + d + "." + rest;
    SecondFieldOf(d, rest);
    Classify172(ip);
  }

  lemma SecondFieldOf(d: string, rest: string)
    requires '.' !in d
    ensures SecondField("172." + d + "." + rest) == Some(d)
  {
    var ip := "172." + d + "." + rest;
    assert ip == "172" + ['.'] + (d + ['.'] + rest);
    BeforeConcat("172", d + ['.'] + rest, '.');
    BeforeConcat(d, rest, '.');
  }

  /** An address starting `172.` is classified by its second field alone. */
  lemma Classify172(ip: string)
    requires |ip| >= 4 && ip[..4] == "172."
    ensures Classify(ip) == Class172(SecondField(ip))
  {
    assert ip[0] == '1' && ip[1] == '7';
    assert !StartsWith(ip, "127.") && !StartsWith(ip, "169.254.") && !StartsWith(ip, "198.18.");
    assert !StartsWith(ip, "192.168.") && !StartsWith(ip, "10.") && StartsWith(ip, "172.");
  }

  lemma {:induction false} BeforeConcat(p: string, rest: string, c: char)
    requires c !in p
    ensures Before(p + [c] + rest, c) == p
  {
    if p != [] {
      assert (p + [c] + rest)[1..] == p[1..] + [c] + rest;
      BeforeConcat(p[1..], rest, c);
    }
  }

  /** `ip not in candidates` appending: the resolver's addresses without repeats, first occurrence first. */
  function Dedup(s: seq<string>): (r: seq<string>)
    ensures forall x :: x in r <==> x in s
    ensures forall i, j :: 0 <= i < j < |r| ==> r[i] != r[j]
  {
    if s == [] then []
    else
      var init := Dedup(s[..|s| - 1]);
      var last := s[|s| - 1];
      assert forall x :: x in s <==> x in s[..|s| - 1] || x == last;
      if last in init then init else init + [last]
  }

  /** `get_local_ip`. `probe` is the address of the routing probe socket, `addrInfo` and `hostByName` the resolver's answers (empty on failure). */
  method GetLocalIp(hostIp: Option<string>, lanIp: Option<string>, probe: Option<string>,
                    addrInfo: seq<string>, hostByName: seq<string>) returns (ip: string)
    ensures var env := PyOr(hostIp, lanIp);
      ip == if Truthy(env) then env.value
            else if probe.Some? && !StartsWith(probe.value, "127.") && !StartsWith(probe.value, "169.254.") then probe.value
            else Choice(if Dedup(addrInfo) != [] then Dedup(addrInfo) else hostByName)
  {
    var env := PyOr(hostIp, lanIp);
    if Truthy(env) {
      return env.value;
    }
    if probe.Some? && !StartsWith(probe.value, "127.") && !StartsWith(probe.value, "169.254.") {
      return probe.value;
    }
    var candidates: seq<string> := [];
    var i := 0;
    while i < |addrInfo|
      invariant 0 <= i <= |addrInfo| && candidates == Dedup(addrInfo[..i])
    {
      assert addrInfo[..i + 1][..i] == addrInfo[..i];
      if addrInfo[i] !in candidates {
        candidates := candidates + [addrInfo[i]];
      }
      i := i + 1;
    }
    assert addrInfo[..|addrInfo|] == addrInfo;
    if candidates == [] {
      candidates := hostByName;
    }
    ip := PrioritizeCandidates(candidates);
  }

  /** A second field that is not an integer puts a `172.` address in the "other" class. */
  lemma NonNumeric172(field: string, rest: string)
    requires '.' !in field && PyInt(field).None?
    ensures Classify("172." + field + "." + rest) == Other
  {
    Field172(field, rest);
  }

  /** What `/api/ip` reports about where to reach the server. */
  datatype Endpoint = Endpoint(ip: string, port: int, proto: string)

  /**
   * The address and the port text written in a stripped `Host` value:
   * `[addr]:port` or `addr:port`; no port text when there is none.
   */
  function SplitHost(host: string): (string, Option<string>) {
    if host == [] then (host, None)
    else if host[0] == '[' then
      match Find(host, ']')
      case None => (host, None)
      case Some(i) =>
        var rest := host[i + 1..];
        (host[1..i], if |rest| > 0 && rest[0] == ':' then Some(rest[1..]) else None)
    else
      (Before(host, ':'), match After(host, ':') case None => None case Some(tail) => Some(Before(tail, ':')))
  }

  /** The address and port of a `Host` value; the port is `None` when absent or not an integer. */
  function ParseHost(host: string): (string, Option<int>) {
    var (ip, text) := SplitHost(host);
    (ip, if text.Some? then PyInt(text.value) else None)
  }

  /** The names `/api/ip` treats as this machine's loopback. */
  predicate IsLoopbackName(ip: string) {
    ip == "127.0.0.1" || ip == "localhost" || ip == "::1"
  }

  /** The port used when the `Host` value has none: `int(X-Forwarded-Port)` when set, else the server's. */
  function FallbackPort(forwardedPort: Option<string>, globalPort: int): int {
    if Truthy(forwardedPort) then PyInt(forwardedPort.value).GetOr(globalPort) else globalPort
  }

  /** The fallback is `X-Forwarded-Port` when that is set and reads as an integer, and the server's port otherwise. */
  lemma FallbackPortRules(forwardedPort: Option<string>, globalPort: int)
    ensures Truthy(forwardedPort) && PyInt(forwardedPort.value).Some? ==>
              FallbackPort(forwardedPort, globalPort) == PyInt(forwardedPort.value).value
    ensures !Truthy(forwardedPort) || PyInt(forwardedPort.value).None? ==>
              FallbackPort(forwardedPort, globalPort) == globalPort
  {
  }

  /**
   * `/api/ip`: the address from the forwarded or direct `Host` header, unless
   * the environment names one; the port from the header, else
   * `X-Forwarded-Port`, else the server's port; a loopback address replaced by
   * the LAN address when that is usable.
   */
  function ApiIp(hostIp: Option<string>, lanIpEnv: Option<string>, forwardedHost: Option<string>, requestHost: string,
                 forwardedPort: Option<string>, forwardedProto: Option<string>, scheme: string,
                 lanIp: string, globalPort: int): Endpoint
  {
    var env := PyOr(hostIp, lanIpEnv);
    var host := PyStrip(PyOr(forwardedHost, Some(requestHost)).value);
    var (parsedIp, parsedPort) := ParseHost(host);
    var ip := if Truthy(env) then env.value else parsedIp;
    var port := if parsedPort.Some? then parsedPort.value else FallbackPort(forwardedPort, globalPort);
    var proto := PyOr(PyOr(forwardedProto, Some(scheme)), Some("http")).value;
    Endpoint(if IsLoopbackName(ip) && lanIp != "" && lanIp != "127.0.0.1" then lanIp else ip, port, proto)
  }

  /** `addr:port` reads back as the address and the port. */
  lemma HostPortRoundTrip(addr: string, port: nat)
    requires addr != [] && addr[0] != '[' && ':' !in addr
    ensures ParseHost(addr + ":" + NatToDecimal(port)) == (addr, Some(port))
  {
    DecimalHasNo(port, ':');
    PyIntOfDecimal(port);
    SplitHostPort(addr, NatToDecimal(port));
    ReadPort(addr + ":" + NatToDecimal(port), addr, NatToDecimal(port), port);
  }

  lemma SplitHostPort(addr: string, d: string)
    requires addr != [] && addr[0] != '[' && ':' !in addr && ':' !in d
    ensures SplitHost(addr + ":" + d) == (addr, Some(d))
  {
    var host := addr + [':'] + d;
    assert addr + ":" + d == host;
    assert host[0] != '[';
    BeforeConcat(addr, d, ':');
    assert After(host, ':') == Some(d);
    NoSeparator(d, ':');
  }

  /** A port text that `int()` reads gives the port. */
  lemma ReadPort(host: string, ip: string, d: string, v: int)
    requires SplitHost(host) == (ip, Some(d)) && PyInt(d) == Some(v)
    ensures ParseHost(host) == (ip, Some(v))
  {
  }

  /** A bare address reads back as itself with no port. */
  lemma BareHostRoundTrip(addr: string)
    requires addr != [] && addr[0] != '[' && ':' !in addr
    ensures ParseHost(addr) == (addr, None)
  {
    NoSeparator(addr, ':');
  }

  lemma NoSeparator(s: string, c: char)
    requires c !in s
    ensures Before(s, c) == s && After(s, c).None?
  {
  }

  /** `[addr]:port` reads back as the address without brackets and the port. */
  lemma BracketedHostRoundTrip(addr: string, port: nat)
    requires ']' !in addr
    ensures ParseHost("[" + addr + "]:" + NatToDecimal(port)) == (addr, Some(port))
  {
    PyIntOfDecimal(port);
    SplitBracketed(addr, NatToDecimal(port));
    ReadPort("[" + addr + "]:" + NatToDecimal(port), addr, NatToDecimal(port), port);
  }

  lemma SplitBracketed(addr: string, d: string)
    requires ']' !in addr
    ensures SplitHost("[" + addr + "]:" + d) == (addr, Some(d))
  {
    var host := "[" + addr + "]:" + d;
    var tail := [':'] + d;
    assert host == ("[" + addr) + [']'] + tail;
    FindAfter("[" + addr, ']', tail);
    var i := |addr| + 1;
    assert host[i + 1..] == tail;
    assert host[1..i] == addr by {
      SliceMiddle("[", addr, [']'] + tail);
      assert host == "[" + addr + ([']'] + tail);
    }
  }

  /** `[addr]` reads back as the address without brackets and no port. */
  lemma BracketedBareRoundTrip(addr: string)
    requires ']' !in addr
    ensures ParseHost("[" + addr + "]") == (addr, None)
  {
    var host := "[" + addr + "]";
    assert host == ("[" + addr) + [']'] + [];
    FindAfter("[" + addr, ']', []);
    SliceMiddle("[", addr, "]");
  }

  lemma SliceMiddle(a: string, b: string, c: string)
    ensures (a + b + c)[|a|..|a| + |b|] == b
  {
  }

  lemma FindAfter(p: string, c: char, rest: string)
    requires c !in p
    ensures Find(p + [c] + rest, c) == Some(|p|)
  {
    BeforeConcat(p, rest, c);
  }

  /**
   * The reported address is the LAN address or the address found: the LAN
   * address exactly when the address found is a loopback name and the LAN
   * address is usable.
   */
  lemma LoopbackReplaced(hostIp: Option<string>, lanIpEnv: Option<string>, forwardedHost: Option<string>, requestHost: string,
                         forwardedPort: Option<string>, forwardedProto: Option<string>, scheme: string,
                         lanIp: string, globalPort: int)
    ensures var env := PyOr(hostIp, lanIpEnv);
      var found := if Truthy(env) then env.value else ParseHost(PyStrip(PyOr(forwardedHost, Some(requestHost)).value)).0;
      var r := ApiIp(hostIp, lanIpEnv, forwardedHost, requestHost, forwardedPort, forwardedProto, scheme, lanIp, globalPort);
      (IsLoopbackName(found) && lanIp != "" && lanIp != "127.0.0.1" ==> r.ip == lanIp)
      && (!(IsLoopbackName(found) && lanIp != "" && lanIp != "127.0.0.1") ==> r.ip == found)
      && (IsLoopbackName(r.ip) ==> lanIp == "" || lanIp == "127.0.0.1" || IsLoopbackName(lanIp))
  {
  }

  /**
   * For a `Host` value `addr:t` (the forwarded host when set, else the
   * request's), the reported port is `int(t)` when `t` reads as an integer,
   * whatever `X-Forwarded-Port` says; when it does not, the port is the
   * fallback (`X-Forwarded-Port` read as an integer, else the server's port,
   * see FallbackPortRules). Without an environment address, a non-loopback
   * `addr` is the reported address.
   */
  lemma HostPortChoice(addr: string, t: string, hostIp: Option<string>, lanIpEnv: Option<string>,
                       forwardedHost: Option<string>, requestHost: string, forwardedPort: Option<string>,
                       forwardedProto: Option<string>, scheme: string, lanIp: string, globalPort: int)
    requires addr != [] && addr[0] != '[' && ':' !in addr && ':' !in t
    requires !PyIsSpace(addr[0]) && (t == [] || !PyIsSpace(t[|t| - 1]))
    requires PyOr(forwardedHost, Some(requestHost)).value == addr + ":" + t
    ensures var r := ApiIp(hostIp, lanIpEnv, forwardedHost, requestHost, forwardedPort, forwardedProto, scheme, lanIp, globalPort);
      (PyInt(t).Some? ==> r.port == PyInt(t).value)
      && (PyInt(t).None? ==> r.port == FallbackPort(forwardedPort, globalPort))
      && (!Truthy(PyOr(hostIp, lanIpEnv)) && !IsLoopbackName(addr) ==> r.ip == addr)
  {
    HostPortRead(addr, t, hostIp, lanIpEnv, forwardedHost, requestHost, forwardedPort, forwardedProto, scheme, lanIp, globalPort);
    HostPortFallback(addr, t, hostIp, lanIpEnv, forwardedHost, requestHost, forwardedPort, forwardedProto, scheme, lanIp, globalPort);
    HostAddressKept(addr, t, hostIp, lanIpEnv, forwardedHost, requestHost, forwardedPort, forwardedProto, scheme, lanIp, globalPort);
  }

  /** A port text that `int()` reads is the reported port. */
  lemma HostPortRead(addr: string, t: string, hostIp: Option<string>, lanIpEnv: Option<string>,
                       forwardedHost: Option<string>, requestHost: string, forwardedPort: Option<string>,
                       forwardedProto: Option<string>, scheme: string, lanIp: string, globalPort: int)
    requires addr != [] && addr[0] != '[' && ':' !in addr && ':' !in t
    requires !PyIsSpace(addr[0]) && (t == [] || !PyIsSpace(t[|t| - 1]))
    requires PyOr(forwardedHost, Some(requestHost)).value == addr + ":" + t
    ensures var r := ApiIp(hostIp, lanIpEnv, forwardedHost, requestHost, forwardedPort, forwardedProto, scheme, lanIp, globalPort);
      PyInt(t).Some? ==> r.port == PyInt(t).value
  {
    HostText(addr, t);
    PortFromParse(addr, PyInt(t), hostIp, lanIpEnv, forwardedHost, requestHost, forwardedPort, forwardedProto,
                  scheme, lanIp, globalPort);
  }

  /** A port text that `int()` rejects leaves the fallback port. */
  lemma HostPortFallback(addr: string, t: string, hostIp: Option<string>, lanIpEnv: Option<string>,
                       forwardedHost: Option<string>, requestHost: string, forwardedPort: Option<string>,
                       forwardedProto: Option<string>, scheme: string, lanIp: string, globalPort: int)
    requires addr != [] && addr[0] != '[' && ':' !in addr && ':' !in t
    requires !PyIsSpace(addr[0]) && (t == [] || !PyIsSpace(t[|t| - 1]))
    requires PyOr(forwardedHost, Some(requestHost)).value == addr + ":" + t
    ensures var r := ApiIp(hostIp, lanIpEnv, forwardedHost, requestHost, forwardedPort, forwardedProto, scheme, lanIp, globalPort);
      PyInt(t).None? ==> r.port == FallbackPort(forwardedPort, globalPort)
  {
    HostText(addr, t);
    PortFromParse(addr, PyInt(t), hostIp, lanIpEnv, forwardedHost, requestHost, forwardedPort, forwardedProto,
                  scheme, lanIp, globalPort);
  }

  /** Without an environment address, a non-loopback `addr` is the reported address. */
  lemma HostAddressKept(addr: string, t: string, hostIp: Option<string>, lanIpEnv: Option<string>,
                       forwardedHost: Option<string>, requestHost: string, forwardedPort: Option<string>,
                       forwardedProto: Option<string>, scheme: string, lanIp: string, globalPort: int)
    requires addr != [] && addr[0] != '[' && ':' !in addr && ':' !in t
    requires !PyIsSpace(addr[0]) && (t == [] || !PyIsSpace(t[|t| - 1]))
    requires PyOr(forwardedHost, Some(requestHost)).value == addr + ":" + t
    ensures var r := ApiIp(hostIp, lanIpEnv, forwardedHost, requestHost, forwardedPort, forwardedProto, scheme, lanIp, globalPort);
      !Truthy(PyOr(hostIp, lanIpEnv)) && !IsLoopbackName(addr) ==> r.ip == addr
  {
    HostText(addr, t);
    PortFromParse(addr, PyInt(t), hostIp, lanIpEnv, forwardedHost, requestHost, forwardedPort, forwardedProto,
                  scheme, lanIp, globalPort);
  }

  /** An unpadded `addr:t` strips to itself and splits into `addr` and `int(t)`. */
  lemma HostText(addr: string, t: string)
    requires addr != [] && addr[0] != '[' && ':' !in addr && ':' !in t
    requires !PyIsSpace(addr[0]) && (t == [] || !PyIsSpace(t[|t| - 1]))
    ensures ParseHost(PyStrip(addr + ":" + t)) == (addr, PyInt(t))
  {
    var host := addr + ":" + t;
    assert host[0] == addr[0];
    assert host[|host| - 1] == if t == [] then ':' else t[|t| - 1];
    PyStripKeeps(host);
    SplitHostPort(addr, t);
  }

  /** The port and address `/api/ip` reports, from what the `Host` value parsed to. */
  lemma PortFromParse(ip: string, port: Option<int>, hostIp: Option<string>, lanIpEnv: Option<string>,
                      forwardedHost: Option<string>, requestHost: string, forwardedPort: Option<string>,
                      forwardedProto: Option<string>, scheme: string, lanIp: string, globalPort: int)
    requires ParseHost(PyStrip(PyOr(forwardedHost, Some(requestHost)).value)) == (ip, port)
    ensures var r := ApiIp(hostIp, lanIpEnv, forwardedHost, requestHost, forwardedPort, forwardedProto, scheme, lanIp, globalPort);
      (port.Some? ==> r.port == port.value)
      && (port.None? ==> r.port == FallbackPort(forwardedPort, globalPort))
      && (!Truthy(PyOr(hostIp, lanIpEnv)) && !IsLoopbackName(ip) ==> r.ip == ip)
      && (!Truthy(PyOr(hostIp, lanIpEnv)) && IsLoopbackName(ip) && lanIp != "" && lanIp != "127.0.0.1" ==> r.ip == lanIp)
  {
  }

  /**
   * A request for `localhost:<p>` with no environment address, on a machine
   * whose LAN address is usable, reports the LAN address and port `p`.
   */
  lemma LocalhostReported(p: nat, hostIp: Option<string>, lanIpEnv: Option<string>,
                          forwardedHost: Option<string>, requestHost: string, forwardedPort: Option<string>,
                          forwardedProto: Option<string>, scheme: string, lanIp: string, globalPort: int)
    requires PyOr(forwardedHost, Some(requestHost)).value == "localhost:" + NatToDecimal(p)
    requires !Truthy(PyOr(hostIp, lanIpEnv)) && lanIp != "" && lanIp != "127.0.0.1"
    ensures var r := ApiIp(hostIp, lanIpEnv, forwardedHost, requestHost, forwardedPort, forwardedProto, scheme, lanIp, globalPort);
      r.ip == lanIp && r.port == p
  {
    var d := NatToDecimal(p);
    DecimalHasNo(p, ':');
    DigitNotSpace(d[|d| - 1]);
    assert "localhost:" + d == "localhost" + ":" + d;
    HostText("localhost", d);
    PyIntOfDecimal(p);
    PortFromParse("localhost", Some(p), hostIp, lanIpEnv, forwardedHost, requestHost, forwardedPort, forwardedProto,
                  scheme, lanIp, globalPort);
  }
}
