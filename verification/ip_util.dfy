/** The client address of an HTTP request, read from the headers proxies
    set, and the host's own non-loopback IPv4 addresses.

    The servlet request is its header lookup (case-insensitive in the
    container, so the lookup is taken as given) and its remote address.
    Whether a string is an IP literal (`InetAddresses.isInetAddress`) is a
    parameter, and so are the host's network interfaces. */
module IPUtil {
  import opened Wrappers
  import opened Throwables
  import opened Strings
  import URLUtils

  datatype Request = Request(header: string -> Option<string>, remoteAddr: Option<string>)

  /** The address is usable: present, not blank, and an IP literal. */
  predicate Accepted(ip: Option<string>, isInet: string -> bool) {
    ip.Some? && !IsBlank(ip.value) && isInet(ip.value)
  }

  /** `StringUtils.split(s, ",")`: the pieces between separators with the
      empty ones dropped, so that runs of separators count as one. */
  function Tokens(s: string, c: char): (r: seq<string>)
  {
    NonEmpty(URLUtils.Fields(s, c))
  }

  function NonEmpty(xs: seq<string>): (r: seq<string>)
    ensures |r| <= |xs|
    ensures forall i :: 0 <= i < |r| ==> r[i] != ""
    ensures forall x :: x in r <==> x in xs && x != ""
    decreases |xs|
  {
    if xs == [] then []
    else (if xs[0] == "" then [] else [xs[0]]) + NonEmpty(xs[1..])
  }

  /** The `x-forwarded-for` step: the header is split at commas, but the loop
      tests the whole header, not each piece, for being an IP literal; when it
      is one, the first piece is taken. */
  function ForwardedFor(h: Option<string>, isInet: string -> bool): (r: Option<string>)
    ensures h.None? ==> r.None?
    ensures h.Some? && isInet(h.value) && Tokens(h.value, ',') != [] ==> r == Some(Tokens(h.value, ',')[0])
    ensures !(h.Some? && isInet(h.value)) ==> r == h
  {
    if h.None? then None
    else
      var ips := Tokens(h.value, ',');
      if |ips| > 0 && isInet(h.value) then Some(ips[0]) else h
  }

  /** A header without a comma passes through the step unchanged. */
  lemma ForwardedForKeepsSingle(h: Option<string>, isInet: string -> bool)
    requires h.Some? ==> ',' !in h.value
    ensures ForwardedFor(h, isInet) == h
  {
    if h.Some? {
      assert URLUtils.Fields(h.value, ',') == [h.value];
      assert NonEmpty([h.value]) == (if h.value == "" then [] else [h.value]) + NonEmpty([]);
    }
  }

  /** No IP literal holds a comma, so the step never changes the header: a
      list of forwarded addresses is never split into its first address. */
  lemma ForwardedForIsIdentity(h: Option<string>, isInet: string -> bool)
    requires forall x :: isInet(x) ==> ',' !in x
    ensures ForwardedFor(h, isInet) == h
  {
    if h.Some? && isInet(h.value) {
      ForwardedForKeepsSingle(h, isInet);
    }
  }

  /** `getClientIP`: each header in turn replaces the candidate while the
      candidate is not usable; the remote address is taken last, usable or
      not. */
  function GetClientIP(request: Request, isInet: string -> bool): (r: Option<string>)
    ensures Accepted(r, isInet) || r == request.remoteAddr
    ensures Accepted(request.header("NS-Client-IP"), isInet) ==> r == request.header("NS-Client-IP")
  {
    var ip := request.header("NS-Client-IP");
    var ip := if !Accepted(ip, isInet) then request.header("X-Real-IP") else ip;
    var ip := if !Accepted(ip, isInet) then ForwardedFor(request.header("x-forwarded-for"), isInet) else ip;
    var ip := if !Accepted(ip, isInet) then request.header("Proxy-Client-IP") else ip;
    var ip := if !Accepted(ip, isInet) then request.header("WL-Proxy-Client-IP") else ip;
    if !Accepted(ip, isInet) then request.remoteAddr else ip
  }

  /** The first usable candidate, or the fallback when none is. */
  function FirstAccepted(candidates: seq<Option<string>>, fallback: Option<string>, isInet: string -> bool)
    : (r: Option<string>)
    ensures Accepted(r, isInet) || r == fallback
    ensures r != fallback ==> exists i :: 0 <= i < |candidates| && candidates[i] == r
    ensures forall i :: 0 <= i < |candidates| && Accepted(candidates[i], isInet) ==> Accepted(r, isInet)
    decreases |candidates|
  {
    if candidates == [] then fallback
    else if Accepted(candidates[0], isInet) then candidates[0]
    else
      var r := FirstAccepted(candidates[1..], fallback, isInet);
      assert forall i :: 1 <= i < |candidates| ==> candidates[i] == candidates[1..][i - 1];
      r
  }

  /** The headers `getClientIP` consults, in its order of preference. */
  function Candidates(request: Request, isInet: string -> bool): seq<Option<string>> {
    [request.header("NS-Client-IP"), request.header("X-Real-IP"),
     ForwardedFor(request.header("x-forwarded-for"), isInet),
     request.header("Proxy-Client-IP"), request.header("WL-Proxy-Client-IP")]
  }

  /** The client address is the first usable header in the order of
      preference, or else the remote address. */
  lemma GetClientIPPrefersHeaders(request: Request, isInet: string -> bool)
    ensures GetClientIP(request, isInet) == FirstAccepted(Candidates(request, isInet), request.remoteAddr, isInet)
  {
    var c := Candidates(request, isInet);
    var f := request.remoteAddr;
    assert c[4..][1..] == [];
    assert c[3..][1..] == c[4..];
    assert c[2..][1..] == c[3..];
    assert c[1..][1..] == c[2..];
    assert FirstAccepted(c[4..], f, isInet) == if Accepted(c[4], isInet) then c[4] else f;
    assert FirstAccepted(c[3..], f, isInet) == if Accepted(c[3], isInet) then c[3] else FirstAccepted(c[4..], f, isInet);
    assert FirstAccepted(c[2..], f, isInet) == if Accepted(c[2], isInet) then c[2] else FirstAccepted(c[3..], f, isInet);
    assert FirstAccepted(c[1..], f, isInet) == if Accepted(c[1], isInet) then c[1] else FirstAccepted(c[2..], f, isInet);
  }

  /** A candidate that is not usable can be left out of the list. */
  lemma {:induction false} FirstAcceptedSkips(pre: seq<Option<string>>, x: Option<string>, post: seq<Option<string>>,
                                              fallback: Option<string>, isInet: string -> bool)
    requires !Accepted(x, isInet)
    ensures FirstAccepted(pre + [x] + post, fallback, isInet) == FirstAccepted(pre + post, fallback, isInet)
    decreases |pre|
  {
    if pre == [] {
      assert pre + [x] + post == [x] + post && ([x] + post)[1..] == post;
      assert pre + post == post;
    } else {
      assert (pre + [x] + post)[1..] == pre[1..] + [x] + post;
      assert (pre + post)[1..] == pre[1..] + post;
      FirstAcceptedSkips(pre[1..], x, post, fallback, isInet);
    }
  }

  /** With an IP-literal test that rejects commas, a forwarded-for list is
      never used: the answer is the first usable one of the other headers, or
      the remote address. */
  lemma ForwardedListIsSkipped(request: Request, isInet: string -> bool)
    requires forall x :: isInet(x) ==> ',' !in x
    ensures Candidates(request, isInet)[2] == request.header("x-forwarded-for")
    ensures var xff := request.header("x-forwarded-for");
            xff.Some? && ',' in xff.value ==>
              GetClientIP(request, isInet) ==
                FirstAccepted([request.header("NS-Client-IP"), request.header("X-Real-IP"),
                               request.header("Proxy-Client-IP"), request.header("WL-Proxy-Client-IP")],
                              request.remoteAddr, isInet)
  {
    var xff := request.header("x-forwarded-for");
    ForwardedForIsIdentity(xff, isInet);
    GetClientIPPrefersHeaders(request, isInet);
    if xff.Some? && ',' in xff.value {
      var pre := [request.header("NS-Client-IP"), request.header("X-Real-IP")];
      var post := [request.header("Proxy-Client-IP"), request.header("WL-Proxy-Client-IP")];
      assert Candidates(request, isInet) == pre + [xff] + post;
      FirstAcceptedSkips(pre, xff, post, request.remoteAddr, isInet);
      assert pre + post == [request.header("NS-Client-IP"), request.header("X-Real-IP"),
                            request.header("Proxy-Client-IP"), request.header("WL-Proxy-Client-IP")];
    }
  }

  // ---------------------------------------------------------------------------
  // Host addresses

  /** The facts about an `InetAddress` the toolkit reads. */
  datatype InetAddress = InetAddress(hostAddress: string, isLoopback: bool, isV4: bool)

  /** `getAllHostAddress`: the addresses of every interface, interface by
      interface; a failure to enumerate them is rethrown unchecked with the
      same message, the original as its cause. */
  function GetAllHostAddress(interfaces: Result<seq<seq<InetAddress>>, Throwable>)
    : (r: Result<seq<InetAddress>, Throwable>)
    ensures interfaces.Err? <==> r.Err?
    ensures r.Err? ==> r.error == Throwable(RuntimeException, interfaces.error.message, Some(interfaces.error))
    ensures r.Ok? ==> forall a :: a in r.value <==> exists i :: 0 <= i < |interfaces.value| && a in interfaces.value[i]
  {
    if interfaces.Err? then
      Err(Throwable(RuntimeException, interfaces.error.message, Some(interfaces.error)))
    else Ok(Flatten(interfaces.value))
  }

  function Flatten(xss: seq<seq<InetAddress>>): (r: seq<InetAddress>)
    ensures forall a :: a in r <==> exists i :: 0 <= i < |xss| && a in xss[i]
    decreases |xss|
  {
    if xss == [] then []
    else
      var r := xss[0] + Flatten(xss[1..]);
      assert forall i :: 1 <= i < |xss| ==> xss[i] == xss[1..][i - 1];
      r
  }

  predicate Kept(a: InetAddress) {
    !a.isLoopback && a.isV4
  }

  /** The host addresses of the non-loopback IPv4 addresses, in order. */
  function Ipv4NoLoopback(addresses: seq<InetAddress>): (r: seq<string>)
    ensures |r| <= |addresses|
    ensures r == [] <==> forall i :: 0 <= i < |addresses| ==> !Kept(addresses[i])
    decreases |addresses|
  {
    if addresses == [] then []
    else
      var rest := Ipv4NoLoopback(addresses[1..]);
      assert forall i :: 1 <= i < |addresses| ==> addresses[i] == addresses[1..][i - 1];
      (if Kept(addresses[0]) then [addresses[0].hostAddress] else []) + rest
  }

  /** An address is listed exactly when some kept address has it. */
  lemma {:induction false} Ipv4NoLoopbackMembers(addresses: seq<InetAddress>)
    ensures forall x :: x in Ipv4NoLoopback(addresses) <==>
              exists i :: 0 <= i < |addresses| && Kept(addresses[i]) && addresses[i].hostAddress == x
    decreases |addresses|
  {
    if addresses != [] {
      Ipv4NoLoopbackMembers(addresses[1..]);
      assert forall i :: 1 <= i < |addresses| ==> addresses[i] == addresses[1..][i - 1];
    }
  }

  /** The filter works address by address: filtering a concatenation
      concatenates the filtered parts, so the order of the addresses is kept. */
  lemma {:induction false} Ipv4NoLoopbackAppend(a: seq<InetAddress>, b: seq<InetAddress>)
    ensures Ipv4NoLoopback(a + b) == Ipv4NoLoopback(a) + Ipv4NoLoopback(b)
    decreases |a|
  {
    if a == [] {
      assert a + b == b;
    } else {
      var head := if Kept(a[0]) then [a[0].hostAddress] else [];
      assert (a + b)[0] == a[0] && (a + b)[1..] == a[1..] + b;
      assert Ipv4NoLoopback(a + b) == head + Ipv4NoLoopback(a[1..] + b);
      Ipv4NoLoopbackAppend(a[1..], b);
      assert Ipv4NoLoopback(a) == head + Ipv4NoLoopback(a[1..]);
      ConcatAssoc(head, Ipv4NoLoopback(a[1..]), Ipv4NoLoopback(b));
    }
  }

  /** `getAllIpv4NoLoopbackAddresses`. */
  function GetAllIpv4NoLoopbackAddresses(interfaces: Result<seq<seq<InetAddress>>, Throwable>)
    : (r: Result<seq<string>, Throwable>)
    ensures r.Err? <==> interfaces.Err?
    ensures r.Err? ==> r.error.cls == RuntimeException
    ensures r.Ok? ==> forall x :: x in r.value <==>
              exists a :: a in GetAllHostAddress(interfaces).value && Kept(a) && a.hostAddress == x
  {
    var all := GetAllHostAddress(interfaces);
    if all.Err? then Err(all.error)
    else
      var r := Ipv4NoLoopback(all.value);
      Ipv4NoLoopbackMembers(all.value);
      assert forall x :: x in r ==> exists a :: a in all.value && Kept(a) && a.hostAddress == x;
      Ok(r)
  }

  const NO_NETWORK_CARD: string := " Sorry, seems you don't have a network card!"

  /** `getFirstNoLoopbackAddress`: the first non-loopback IPv4 address of the
      host; with none, the state check fails. */
  function GetFirstNoLoopbackAddress(interfaces: Result<seq<seq<InetAddress>>, Throwable>)
    : (r: Result<string, Throwable>)
    ensures interfaces.Err? ==> r.Err? && r.error.cls == RuntimeException
    ensures interfaces.Ok? ==>
              var all := Flatten(interfaces.value);
              && (r.Err? <==> forall i :: 0 <= i < |all| ==> !Kept(all[i]))
              && (r.Err? ==> r.error == Raise(IllegalStateException, NO_NETWORK_CARD))
              && (r.Ok? ==> exists i :: 0 <= i < |all| && Kept(all[i]) && all[i].hostAddress == r.value
                                        && forall j :: 0 <= j < i ==> !Kept(all[j]))
  {
    var addresses := GetAllIpv4NoLoopbackAddresses(interfaces);
    if addresses.Err? then Err(addresses.error)
    else if |addresses.value| == 0 then
      Err(Raise(IllegalStateException, NO_NETWORK_CARD))
    else
      FirstKept(Flatten(interfaces.value));
      Ok(addresses.value[0])
  }

  /** The first filtered address is the address of the first kept one. */
  lemma {:induction false} FirstKept(addresses: seq<InetAddress>)
    ensures Ipv4NoLoopback(addresses) != [] ==>
              exists i :: 0 <= i < |addresses| && Kept(addresses[i])
                          && addresses[i].hostAddress == Ipv4NoLoopback(addresses)[0]
                          && forall j :: 0 <= j < i ==> !Kept(addresses[j])
    decreases |addresses|
  {
    if addresses != [] && !Kept(addresses[0]) {
      FirstKept(addresses[1..]);
      if Ipv4NoLoopback(addresses) != [] {
        var i :| 0 <= i < |addresses[1..]| && Kept(addresses[1..][i])
                 && addresses[1..][i].hostAddress == Ipv4NoLoopback(addresses[1..])[0]
                 && forall j :: 0 <= j < i ==> !Kept(addresses[1..][j]);
        assert addresses[i + 1] == addresses[1..][i];
        assert forall j :: 1 <= j < i + 1 ==> addresses[j] == addresses[1..][j - 1];
      }
    }
  }
}
