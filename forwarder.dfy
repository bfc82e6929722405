// The routing part of the HTTP forwarder (`transponder`): parsing the Host
// header, choosing an upstream from the whitelist of upstreams keyed by
// domain, filling in a missing Host header, and the error response sent when
// no upstream matches. Sockets, TLS, the connection pool and the thread pool
// are not part of this model.
module Forwarder {
  import opened Wrappers
  import opened Decimal
  import Strings

  type Word16 = x: int | 0 <= x < 0x1_0000

  const IntMin := -0x8000_0000
  const IntMax := 0x7fff_ffff

  /** The blanks the Host value is trimmed of: space and tab. */
  predicate Blank(c: char)
  {
    c == ' ' || c == '\t'
  }

  /** What `std::stoi` skips before the number: the C `isspace` set. */
  predicate Space(c: char)
  {
    c == ' ' || c == '\t' || c == '\n' || c == '\U{B}' || c == '\U{C}' || c == '\r'
  }

  /** The first position at or after i whose char is not blank, or |s|. */
  function FirstNonBlank(s: string, i: nat): (j: nat)
    requires i <= |s|
    ensures i <= j <= |s|
    ensures forall k :: i <= k < j ==> Blank(s[k])
    ensures j < |s| ==> !Blank(s[j])
    decreases |s| - i
  {
    if i == |s| || !Blank(s[i]) then i else FirstNonBlank(s, i + 1)
  }

  /** One past the last char that is not blank, or 0 when every char is blank. */
  function EndNonBlank(s: string): (j: nat)
    ensures j <= |s|
    ensures forall k :: j <= k < |s| ==> Blank(s[k])
    ensures j > 0 ==> !Blank(s[j - 1])
  {
    if s == [] || !Blank(s[|s| - 1]) then |s| else EndNonBlank(s[..|s| - 1])
  }

  /**
   * The trim of `parse_host_header`: the leading blanks are erased only when
   * a non-blank char exists, and then the trailing ones; an all-blank value
   * is left as it is.
   */
  function Trim(s: string): (r: string)
    ensures |r| <= |s|
  {
    var l := FirstNonBlank(s, 0);
    if l == |s| then s
    else
      var t := s[l..];
      t[..EndNonBlank(t)]
  }

  /** A value with no blank at either end is its own trim. */
  lemma TrimUntouched(s: string)
    requires s != [] && !Blank(s[0]) && !Blank(s[|s| - 1])
    ensures Trim(s) == s
  {
    assert s[0..] == s;
  }

  /** Trimming removes exactly the blanks at both ends of a value that is not all blank. */
  lemma TrimStrips(s: string)
    requires exists k :: 0 <= k < |s| && !Blank(s[k])
    ensures Trim(s) != [] && !Blank(Trim(s)[0]) && !Blank(Trim(s)[|Trim(s)| - 1])
    ensures exists a, b ::
      && 0 <= a <= b <= |s| && Trim(s) == s[a..b]
      && (forall k :: 0 <= k < a ==> Blank(s[k]))
      && (forall k :: b <= k < |s| ==> Blank(s[k]))
  {
    var l := FirstNonBlank(s, 0);
    var t := s[l..];
    var e := EndNonBlank(t);
    assert !Blank(t[0]);
    assert e > 0;
    assert t[..e] == s[l..l + e];
    forall k | l + e <= k < |s|
      ensures Blank(s[k])
    {
      assert s[k] == t[k - l];
    }
  }

  /** The length of the run of digits that starts s. */
  function DigitRun(s: string): (n: nat)
    ensures n <= |s| && AllDigits(s[..n])
    ensures n < |s| ==> !IsDigit(s[n])
  {
    if s == [] || !IsDigit(s[0]) then 0
    else
      assert s[..1 + DigitRun(s[1..])] == [s[0]] + s[1..][..DigitRun(s[1..])];
      1 + DigitRun(s[1..])
  }

  /** s without its leading `isspace` chars. */
  function SkipSpace(s: string): (r: string)
    ensures r == [] || !Space(r[0])
    ensures |r| <= |s| && r == s[|s| - |r|..]
  {
    if s == [] || !Space(s[0]) then s else SkipSpace(s[1..])
  }

  /**
   * `std::stoi` in base 10: leading white space, an optional sign, then the
   * longest run of digits, with anything after it ignored. It throws (None)
   * when there is no digit or the value is outside the range of int.
   */
  function Stoi(s: string): (r: Option<int>)
    ensures r.Some? ==> IntMin <= r.value <= IntMax
  {
    var t := SkipSpace(s);
    var negative := t != [] && t[0] == '-';
    var u := if t != [] && (t[0] == '-' || t[0] == '+') then t[1..] else t;
    var n := DigitRun(u);
    if n == 0 then None
    else
      var magnitude: int := DigitsValue(u[..n]);
      var v := if negative then -magnitude else magnitude;
      if v < IntMin || v > IntMax then None else Some(v)
  }

  /** The digit run of a number's text followed by a non-digit is that text. */
  lemma DigitRunOfNumber(n: nat, rest: string)
    requires rest == [] || !IsDigit(rest[0])
    ensures DigitRun(NatToString(n) + rest) == |NatToString(n)|
  {
    var d := NatToString(n);
    DigitRunPrefix(d, rest);
  }

  lemma {:induction false} DigitRunPrefix(d: string, rest: string)
    requires AllDigits(d) && (rest == [] || !IsDigit(rest[0]))
    ensures DigitRun(d + rest) == |d|
  {
    if d != [] {
      assert (d + rest)[1..] == d[1..] + rest;
      DigitRunPrefix(d[1..], rest);
    }
  }

  /** Stoi of a text that starts with a digit is the value of its leading digit run. */
  lemma StoiOfDigitRun(s: string, k: nat)
    requires s != [] && IsDigit(s[0]) && DigitRun(s) == k
    requires DigitsValue(s[..k]) <= IntMax
    ensures Stoi(s) == Some(DigitsValue(s[..k]) as int)
  {
    var t := SkipSpace(s);
    assert t == s;
    assert t[0] != '-' && t[0] != '+';
  }

  /** `std::stoi` reads back a number's text, whatever non-digit text follows it. */
  lemma StoiOfNumber(n: nat, rest: string)
    requires n <= IntMax && (rest == [] || !IsDigit(rest[0]))
    ensures Stoi(NatToString(n) + rest) == Some(n)
  {
    var d := NatToString(n);
    var s := d + rest;
    assert s[0] == d[0];
    DigitRunOfNumber(n, rest);
    assert s[..|d|] == d;
    DigitsValueOfNatToString(n);
    StoiOfDigitRun(s, |d|);
  }

  /** `static_cast<std::uint16_t>`: the value modulo 2^16. */
  function ToWord16(v: int): (w: Word16)
    ensures 0 <= v < 0x1_0000 ==> w == v
  {
    v % 0x1_0000
  }

  /** The optional port: the truncated stoi value, or none when stoi throws. */
  function PortOf(s: string): (p: Option<Word16>)
    ensures p.Some? <==> Stoi(s).Some?
  {
    match Stoi(s)
    case Some(v) => Some(ToWord16(v))
    case None => None
  }

  /** `std::stoi` reads back a negative number's text. */
  lemma StoiOfNegative(n: nat)
    requires n <= -IntMin
    ensures Stoi("-" + NatToString(n)) == Some(-(n as int))
  {
    var d := NatToString(n);
    var s := "-" + d;
    assert SkipSpace(s) == s;
    assert s[1..] == d + [];
    DigitRunPrefix(d, []);
    assert d[..|d|] == d;
    DigitsValueOfNatToString(n);
  }

  /**
   * A port is never refused for being out of range: any number stoi accepts
   * is wrapped modulo 2^16, so "70000" gives 4464.
   */
  lemma PortWraps(n: nat)
    requires n <= IntMax
    ensures PortOf(NatToString(n)) == Some(n % 0x1_0000)
  {
    StoiOfNumber(n, []);
    assert NatToString(n) + [] == NatToString(n);
  }

  /** A negative port wraps too: "-1" gives 65535. */
  lemma NegativePortWraps(n: nat)
    requires n <= -IntMin
    ensures PortOf("-" + NatToString(n)) == Some((-(n as int)) % 0x1_0000)
  {
    StoiOfNegative(n);
  }

  /** The first index of c in s, or None: `std::string::find`. */
  function Find(s: string, c: char): (r: Option<nat>)
    ensures r.Some? ==> r.value < |s| && s[r.value] == c && c !in s[..r.value]
    ensures r.None? <==> c !in s
  {
    if s == [] then None
    else if s[0] == c then Some(0)
    else
      match Find(s[1..], c)
      case Some(i) => assert s[..i + 1] == [s[0]] + s[1..][..i]; Some(i + 1)
      case None => None
  }

  /** Find stops at the first occurrence. */
  lemma {:induction false} FindAt(s: string, c: char, i: nat)
    requires i < |s| && s[i] == c && c !in s[..i]
    ensures Find(s, c) == Some(i)
  {
    if i > 0 {
      assert s[0] in s[..i];
      assert s[1..][..i - 1] == s[1..i];
      assert forall x :: x in s[1..i] ==> x in s[..i];
      FindAt(s[1..], c, i - 1);
    }
  }

  /**
   * `parse_host_header`: trimmed; a value that starts with '[' and has a ']'
   * yields the text between them, with the port after "]:" when present;
   * any other value is split at its first ':'. The name is lowercased.
   */
  function ParseHostHeader(header: string): (r: (string, Option<Word16>))
    ensures forall k :: 0 <= k < |r.0| ==> !('A' <= r.0[k] <= 'Z')
  {
    var name := Trim(header);
    if name != [] && name[0] == '[' then
      match Find(name, ']')
      case Some(rb) =>
        var port := if rb + 1 < |name| && name[rb + 1] == ':' then PortOf(name[rb + 2..]) else None;
        (Strings.Lower(name[1..rb]), port)
      case None => (Strings.Lower(name), None)
    else
      match Find(name, ':')
      case Some(pos) => (Strings.Lower(name[..pos]), PortOf(name[pos + 1..]))
      case None => (Strings.Lower(name), None)
  }

  /** A plain name: no colon, no leading '[', no blank at either end. */
  predicate PlainName(name: string)
  {
    ':' !in name && (name == [] || (name[0] != '[' && !Blank(name[0]) && !Blank(name[|name| - 1])))
  }

  /** "name:port" parses back to the lowercased name and the port. */
  lemma ParseNameAndPort(name: string, port: Word16)
    requires PlainName(name)
    ensures ParseHostHeader(name + ":" + NatToString(port)) == (Strings.Lower(name), Some(port))
  {
    var digits := NatToString(port);
    var h := name + ":" + digits;
    assert h[|h| - 1] == digits[|digits| - 1];
    assert IsDigit(h[|h| - 1]);
    assert h[0] == if name == [] then ':' else name[0];
    TrimUntouched(h);
    assert Find(h, ':') == Some(|name|) by {
      assert h[|name|] == ':';
      assert h[..|name|] == name;
    }
    assert h[..|name|] == name;
    assert h[|name| + 1..] == digits + [];
    StoiOfNumber(port, []);
  }

  /** A plain name without a port parses to the lowercased name and no port. */
  lemma ParseNameAlone(name: string)
    requires PlainName(name) && name != []
    ensures ParseHostHeader(name) == (Strings.Lower(name), None)
  {
    TrimUntouched(name);
  }

  /** "[name]:port" parses back to the lowercased bracketed name and the port. */
  lemma ParseBracketedAndPort(name: string, port: Word16)
    requires ']' !in name
    ensures ParseHostHeader("[" + name + "]:" + NatToString(port)) == (Strings.Lower(name), Some(port))
  {
    var digits := NatToString(port);
    var h := "[" + name + "]:" + digits;
    var rb := |name| + 1;
    assert h[0] == '[';
    assert h[|h| - 1] == digits[|digits| - 1];
    TrimUntouched(h);
    assert h[..rb] == "[" + name;
    assert h[rb] == ']' && h[rb + 1] == ':';
    FindAt(h, ']', rb);
    assert h[1..rb] == name;
    assert h[rb + 2..] == digits + [];
    StoiOfNumber(port, []);
  }

  /** An upstream entry: the domain it is listed under, where to connect, and the scheme. */
  datatype Upstream = Upstream(domain: string, host: string, port: Word16, useHttps: bool)

  /** The entries listed under one domain, in iteration order: `equal_range`. */
  function Range(ups: seq<Upstream>, domain: string): (r: seq<Upstream>)
    ensures forall u :: u in r <==> u in ups && u.domain == domain
    ensures |r| <= |ups|
  {
    if ups == [] then []
    else if ups[0].domain == domain then [ups[0]] + Range(ups[1..], domain)
    else Range(ups[1..], domain)
  }

  /** The entries not listed under the domain, in iteration order: what `erase(domain)` leaves. */
  function Without(ups: seq<Upstream>, domain: string): (r: seq<Upstream>)
    ensures forall u :: u in r <==> u in ups && u.domain != domain
    ensures |r| <= |ups|
  {
    if ups == [] then []
    else if ups[0].domain != domain then [ups[0]] + Without(ups[1..], domain)
    else Without(ups[1..], domain)
  }

  /** Filtering one more entry at the end extends the result by that entry or by nothing. */
  lemma {:induction false} WithoutSnoc(ups: seq<Upstream>, u: Upstream, domain: string)
    ensures Without(ups + [u], domain) == Without(ups, domain) + (if u.domain != domain then [u] else [])
  {
    if ups != [] {
      assert (ups + [u])[1..] == ups[1..] + [u];
      WithoutSnoc(ups[1..], u, domain);
    }
  }

  /** Every entry is either under the domain or left by `erase`: no entry is lost or doubled. */
  lemma {:induction false} RangeWithoutSplit(ups: seq<Upstream>, domain: string)
    ensures |Range(ups, domain)| + |Without(ups, domain)| == |ups|
  {
    if ups != [] {
      RangeWithoutSplit(ups[1..], domain);
    }
  }

  /** The first entry of rs with the given port, if any. */
  function WithPort(rs: seq<Upstream>, port: Word16): (r: Option<Upstream>)
    ensures r.Some? ==> r.value in rs && r.value.port == port
    ensures r.None? <==> forall u :: u in rs ==> u.port != port
  {
    if rs == [] then None
    else if rs[0].port == port then Some(rs[0])
    else WithPort(rs[1..], port)
  }

  /**
   * `match_upstream`: none when the domain has no entries; the entry with
   * the requested port when there is one; otherwise the domain's first entry.
   */
  function MatchOf(ups: seq<Upstream>, domain: string, port: Option<Word16>): (r: Option<Upstream>)
    ensures r.None? <==> forall u :: u in ups ==> u.domain != domain
    ensures r.Some? ==> r.value in ups && r.value.domain == domain
  {
    var rs := Range(ups, domain);
    if rs == [] then None
    else if port.Some? && WithPort(rs, port.value).Some? then WithPort(rs, port.value)
    else assert rs[0] in rs; Some(rs[0])
  }

  /** What match_upstream promises about ports: the requested one when listed, else the domain's first entry. */
  lemma MatchOfSpec(ups: seq<Upstream>, domain: string, port: Option<Word16>)
    ensures port.Some? && (exists u :: u in ups && u.domain == domain && u.port == port.value) ==>
      MatchOf(ups, domain, port).value.port == port.value
    ensures port.None? && MatchOf(ups, domain, port).Some? ==> MatchOf(ups, domain, port) == Some(Range(ups, domain)[0])
  {
    var rs := Range(ups, domain);
    if rs != [] {
      assert rs[0] in rs;
    }
    if port.Some? && (exists u :: u in ups && u.domain == domain && u.port == port.value) {
      var u :| u in ups && u.domain == domain && u.port == port.value;
      assert u in rs;
    }
  }

  /** The status, reason and body of an error response; Content-Type is always "text/plain". */
  datatype ErrorResponse = ErrorResponse(status: int, reason: string, contentType: string, body: string, contentLength: string)

  /** `make_error_response`: plain text, with Content-Length the body's size in decimal. */
  function MakeErrorResponse(code: int, reason: string, body: string): (r: ErrorResponse)
    ensures r.status == code && r.reason == reason && r.body == body && r.contentType == "text/plain"
    ensures AllDigits(r.contentLength) && DigitsValue(r.contentLength) == |r.body|
  {
    DigitsValueOfNatToString(|body|);
    ErrorResponse(code, reason, "text/plain", body, NatToString(|body|))
  }

  /**
   * `apply_host_header_if_missing`: a present Host is kept; a missing one is
   * set to the domain (the host when the domain is empty), with ":port"
   * unless the port is the scheme's default.
   */
  function HostIfMissing(host: Option<string>, up: Upstream): (r: Option<string>)
    ensures r.Some?
    ensures host.Some? ==> r == host
  {
    if host.Some? then host
    else
      var defaultPort := if up.useHttps then 443 else 80;
      var name := if up.domain == [] then up.host else up.domain;
      if up.port != defaultPort then Some(name + ":" + NatToString(up.port)) else Some(name)
  }

  /** The scheme's default port. */
  function DefaultPort(up: Upstream): Word16
  {
    if up.useHttps then 443 else 80
  }

  /**
   * A filled-in Host header names the upstream's domain and its port: the
   * port written out reads back, and an omitted one is the default.
   */
  lemma HostIfMissingParses(up: Upstream)
    requires up.domain != [] && PlainName(up.domain)
    ensures var parsed := ParseHostHeader(HostIfMissing(None, up).value);
      parsed.0 == Strings.Lower(up.domain) &&
      (parsed.1.Some? ==> parsed.1.value == up.port) &&
      (parsed.1.None? ==> up.port == DefaultPort(up))
  {
    if up.port != DefaultPort(up) {
      ParseNameAndPort(up.domain, up.port);
    } else {
      ParseNameAlone(up.domain);
    }
  }

  /** Where `forward_sync` sends a request. */
  datatype Route = Forward(upstream: Upstream) | Reject(response: ErrorResponse)

  /**
   * The routing decision of `forward_sync`: the upstream matched by the Host
   * header; without a match, 403 when a Host header was given and 502 when
   * none was.
   */
  function RouteOf(ups: seq<Upstream>, host: Option<string>): (r: Route)
    ensures r.Reject? ==> r.response.status == 403 || r.response.status == 502
    ensures r.Forward? ==> r.upstream in ups
  {
    var up := if host.Some? then var (name, port) := ParseHostHeader(host.value); MatchOf(ups, name, port) else None;
    match up
    case Some(u) => Forward(u)
    case None =>
      if host.Some? then Reject(MakeErrorResponse(403, "forbidden", "domain not allowed"))
      else Reject(MakeErrorResponse(502, "proxy resolution failed", "no upstream"))
  }

  /**
   * Without a Host header a request is always refused with 502; with one it
   * is refused with 403 exactly when no entry is listed under the parsed
   * name, and otherwise forwarded to an entry of that name.
   */
  lemma RouteOfSpec(ups: seq<Upstream>, host: Option<string>)
    ensures host.None? ==> RouteOf(ups, host).Reject? && RouteOf(ups, host).response.status == 502
    ensures host.Some? ==>
      (RouteOf(ups, host).Reject? <==> forall u :: u in ups ==> u.domain != ParseHostHeader(host.value).0)
    ensures host.Some? && RouteOf(ups, host).Reject? ==> RouteOf(ups, host).response.status == 403
    ensures RouteOf(ups, host).Forward? ==>
      host.Some? && RouteOf(ups, host).upstream in ups && RouteOf(ups, host).upstream.domain == ParseHostHeader(host.value).0
  {
    if host.Some? {
      var (name, port) := ParseHostHeader(host.value);
      MatchOfSpec(ups, name, port);
    }
  }

  /**
   * Every forwarded request already has a Host header, so the fallback that
   * fills in a missing one never changes a request that forward_sync sends.
   */
  lemma ForwardedKeepsHost(ups: seq<Upstream>, host: Option<string>)
    ensures RouteOf(ups, host).Forward? ==> HostIfMissing(host, RouteOf(ups, host).upstream) == host
  {
    RouteOfSpec(ups, host);
  }

  /** The whitelist of upstreams, in the multimap's iteration order. */
  class Transponder {
    var upstreams: seq<Upstream>

    constructor ()
      ensures upstreams == []
    {
      upstreams := [];
    }

    /**
     * `add_upstream`: lists an entry under the domain; an empty host is
     * replaced by the first resolved address or, failing that, the domain.
     */
    method AddUpstream(domain: string, ipOrHost: string, port: Word16, useHttps: bool, resolved: Option<string>)
      modifies this
      ensures var host := if ipOrHost != [] then ipOrHost
                          else if resolved.Some? && resolved.value != [] then resolved.value
                          else domain;
        upstreams == old(upstreams) + [Upstream(domain, host, port, useHttps)]
    {
      var host := ipOrHost;
      if host == [] {
        if resolved.Some? {
          host := resolved.value;
        }
        if host == [] {
          host := domain;
        }
      }
      upstreams := upstreams + [Upstream(domain, host, port, useHttps)];
    }

    /** `remove_upstream`: every entry under the domain goes, the others stay in order. */
    method RemoveUpstream(domain: string)
      modifies this
      ensures upstreams == Without(old(upstreams), domain)
      ensures MatchOf(upstreams, domain, None).None?
    {
      var kept := [];
      var i := 0;
      while i < |upstreams|
        invariant 0 <= i <= |upstreams|
        invariant upstreams == old(upstreams) && kept == Without(upstreams[..i], domain)
      {
        assert upstreams[..i + 1] == upstreams[..i] + [upstreams[i]];
        WithoutSnoc(upstreams[..i], upstreams[i], domain);
        if upstreams[i].domain != domain {
          kept := kept + [upstreams[i]];
        }
        i := i + 1;
      }
      assert upstreams[..i] == upstreams;
      upstreams := kept;
      MatchOfSpec(upstreams, domain, None);
    }

    /** `match_upstream`: scans the domain's entries for the requested port. */
    method MatchUpstream(domain: string, port: Option<Word16>) returns (r: Option<Upstream>)
      ensures r == MatchOf(upstreams, domain, port)
    {
      var rs := Range(upstreams, domain);
      if rs == [] {
        return None;
      }
      if port.Some? {
        var i := 0;
        while i < |rs|
          invariant 0 <= i <= |rs|
          invariant WithPort(rs, port.value) == WithPort(rs[i..], port.value)
        {
          if rs[i].port == port.value {
            return Some(rs[i]);
          }
          assert rs[i..][1..] == rs[i + 1..];
          i := i + 1;
        }
      }
      r := Some(rs[0]);
    }

    /** `forward_sync` up to the upstream call: the route and the Host header the request is sent with. */
    method ForwardSync(host: Option<string>) returns (r: Route, sentHost: Option<string>)
      ensures r == RouteOf(upstreams, host)
      ensures r.Forward? ==> sentHost == host
    {
      var up := None;
      if host.Some? {
        var (name, p) := ParseHostHeader(host.value);
        up := MatchUpstream(name, p);
      }
      if up.None? {
        sentHost := host;
        if host.Some? {
          return Reject(MakeErrorResponse(403, "forbidden", "domain not allowed")), sentHost;
        }
        return Reject(MakeErrorResponse(502, "proxy resolution failed", "no upstream")), sentHost;
      }
      sentHost := HostIfMissing(host, up.value);
      ForwardedKeepsHost(upstreams, host);
      r := Forward(up.value);
    }
  }
}
