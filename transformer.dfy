/**
 * convert_to_npm_config: one extracted site becomes the body of a proxy-host
 * creation request. The forwarding target is the first location's proxy_pass
 * with its schemes removed, split at ':'; the advanced configuration repeats
 * every location as an nginx fragment.
 */
module Transformer {
  import opened Wrappers
  import opened Text
  import opened Extractor

  datatype Meta = Meta(letsencryptAgree: bool, dnsChallenge: bool)

  /** The JSON object sent to the proxy manager, one field per key. */
  datatype ProxyHostRequest = ProxyHostRequest(
    domainNames: seq<string>,
    forwardScheme: string,
    forwardHost: string,
    forwardPort: int,
    accessListId: int,
    certificateId: int,
    sslForced: bool,
    cachingEnabled: bool,
    blockExploits: bool,
    advancedConfig: string,
    meta: Meta)

  /**
   * Why a site cannot be converted: it has no location (the IndexError of
   * `locations[0]`), or the port segment of a location's target is not an
   * integer (the ValueError of `int()`), reported for the first such location.
   */
  datatype ConvertError = NoLocations | InvalidPort(location: nat)

  // ---------------------------------------------------------------------------
  // Forward host and port

  /** `target.replace("http://", "").replace("https://", "")`. */
  function StripSchemes(target: string): (r: string) {
    RemoveAll(RemoveAll(target, "http://"), "https://")
  }

  /** The `split(":")` of the target without its schemes. */
  function HostPort(target: string): (segs: seq<string>)
    ensures |segs| > 0
  {
    SplitOn(StripSchemes(target), ':')
  }

  /** Segment 0 of the split. */
  function ForwardHost(target: string): (h: string)
    ensures ':' !in h
  {
    HostPort(target)[0]
  }

  /**
   * `int()` of segment 1 when the split has one, otherwise 443 for a site
   * listening on 443 and 80 for any other; None where `int()` raises.
   */
  function ForwardPort(target: string, listenPort: int): (r: Option<int>)
  {
    var segs := HostPort(target);
    if |segs| > 1 then ParseInt(segs[1])
    else Some(if listenPort == 443 then 443 else 80)
  }

  /** The scheme is guessed from the port alone. */
  function Scheme(port: int): (r: string) {
    if port == 80 then "http" else "https"
  }

  /** A target without any scheme text is left as it is. */
  lemma StripSchemesPlain(t: string)
    requires !Occurs(t, "http://") && !Occurs(t, "https://")
    ensures StripSchemes(t) == t
  {
    RemoveAllAbsent(t, "http://");
    RemoveAllAbsent(t, "https://");
  }

  /** A leading `http://` is removed, and nothing else is when the rest has no scheme text. */
  lemma StripSchemesHttp(rest: string)
    requires !Occurs(rest, "http://") && !Occurs(rest, "https://")
    ensures StripSchemes("http://" + rest) == rest
  {
    RemoveAllLeading("http://", rest);
    RemoveAllAbsent(rest, "http://");
    RemoveAllAbsent(rest, "https://");
  }

  /** A leading `https://` survives the first replace and is removed by the second. */
  lemma StripSchemesHttps(rest: string)
    requires !Occurs(rest, "http://") && !Occurs(rest, "https://")
    ensures StripSchemes("https://" + rest) == rest
  {
    var s := "https://" + rest;
    assert !Occurs(s, "http://") by {
      forall i | 0 <= i <= |s| ensures !LiteralAt(s, i, "http://") {
        if i == 0 {
          assert s[4] == 's';
        } else if i < 8 {
          assert s[i] == "https://"[i] != 'h';
        } else if i + 7 <= |s| {
          assert s[i..i + 7] == rest[i - 8..i - 1];
          assert !LiteralAt(rest, i - 8, "http://");
        }
      }
    }
    RemoveAllAbsent(s, "http://");
    RemoveAllLeading("https://", rest);
    RemoveAllAbsent(rest, "https://");
  }

  /**
   * `replace` is not a prefix strip: an `http://` in the middle of a target is
   * removed as well, and the text on both sides is kept.
   */
  lemma StripSchemesInside(x: string, y: string)
    requires !Occurs(x + "http:/", "http://") && !Occurs(y, "http://")
    requires !Occurs(x + y, "https://")
    ensures StripSchemes(x + "http://" + y) == x + y
  {
    assert "http://"[..6] == "http:/";
    RemoveAllSkip(x, "http://", y);
    RemoveAllAbsent(y, "http://");
    RemoveAllAbsent(x + y, "https://");
  }

  /** The target `ahttp://b` becomes `ab`, where a prefix strip would leave it unchanged. */
  lemma StripSchemesInsideExample()
    ensures StripSchemes("a" + "http://" + "b") == "ab"
  {
    assert !Occurs("a" + "http:/", "http://") by {
      assert ("a" + "http:/")[0] == 'a';
    }
    StripSchemesInside("a", "b");
  }

  /** Without a ':' the whole de-schemed target is the host and the port is the default. */
  lemma PortDefault(t: string, listenPort: int)
    requires ':' !in StripSchemes(t)
    ensures ForwardHost(t) == StripSchemes(t)
    ensures ForwardPort(t, listenPort) == Some(if listenPort == 443 then 443 else 80)
  {
    SplitOnNone(StripSchemes(t), ':');
  }

  /**
   * With a ':' the host is the text before the first one and the port is `int()`
   * of the text up to the next one (or the end).
   */
  lemma PortExplicit(t: string, listenPort: int, h: string, d: string, rest: string)
    requires StripSchemes(t) == h + [':'] + d + rest
    requires ':' !in h && ':' !in d && (rest == [] || rest[0] == ':')
    ensures ForwardHost(t) == h
    ensures ForwardPort(t, listenPort) == ParseInt(d)
  {
    if rest == [] {
      assert StripSchemes(t) == h + [':'] + d;
      SplitOnCons(h, ':', d);
      SplitOnNone(d, ':');
    } else {
      assert StripSchemes(t) == h + [':'] + (d + [':'] + rest[1..]);
      SplitOnCons(h, ':', d + [':'] + rest[1..]);
      SplitOnCons(d, ':', rest[1..]);
    }
  }

  /** "http://" and "https://" start with 'h' and have '/' after their ':'. */
  predicate SchemeLike(pat: string) {
    |pat| > 0 && pat[0] == 'h' &&
    forall j :: 0 <= j < |pat| && pat[j] == ':' ==> j + 1 < |pat| && pat[j + 1] == '/'
  }

  /** A scheme cannot appear across or after the ':' that starts a port number. */
  lemma NoSchemeAcrossPort(h: string, d: string, pat: string)
    requires SchemeLike(pat) && ':' !in h && !Occurs(h, pat)
    requires forall q :: 0 <= q < |d| ==> IsDigit(d[q])
    ensures !Occurs(h + [':'] + d, pat)
  {
    var s := h + [':'] + d;
    var c := |h|;
    forall p | 0 <= p <= |s| ensures !LiteralAt(s, p, pat) {
      if p + |pat| <= c {
        assert s[p..p + |pat|] == h[p..p + |pat|];
        assert !LiteralAt(h, p, pat);
      } else if p <= c && p + |pat| <= |s| {
        assert s[c] == ':';
        assert c + 1 < |s| ==> IsDigit(s[c + 1]);
      } else if c < p < |s| {
        assert IsDigit(s[p]);
      }
    }
  }

  lemma SchemesAreSchemeLike()
    ensures SchemeLike("http://") && SchemeLike("https://")
  {
    assert "http://"[4] == ':' && "https://"[5] == ':';
  }

  /** The de-schemed target of `http://host` or `https://host`, for a host without ':' or scheme text. */
  lemma StripSchemesPrefix(scheme: string, rest: string)
    requires scheme == "http://" || scheme == "https://"
    requires !Occurs(rest, "http://") && !Occurs(rest, "https://")
    ensures StripSchemes(scheme + rest) == rest
  {
    if scheme == "http://" {
      StripSchemesHttp(rest);
    } else {
      StripSchemesHttps(rest);
    }
  }

  /**
   * `proxy_pass http://host;` (or https) forwards to host on 443 when the site
   * listens on 443 and on 80 otherwise.
   */
  lemma DefaultPortTarget(scheme: string, host: string, listenPort: int)
    requires scheme == "http://" || scheme == "https://"
    requires ':' !in host && !Occurs(host, "http://") && !Occurs(host, "https://")
    ensures ForwardHost(scheme + host) == host
    ensures ForwardPort(scheme + host, listenPort) == Some(if listenPort == 443 then 443 else 80)
  {
    StripSchemesPrefix(scheme, host);
    PortDefault(scheme + host, listenPort);
  }

  /** `proxy_pass http://host:n;` (or https) forwards to host on port n, whatever the site listens on. */
  lemma ExplicitPortTarget(scheme: string, host: string, n: nat, listenPort: int)
    requires scheme == "http://" || scheme == "https://"
    requires ':' !in host && !Occurs(host, "http://") && !Occurs(host, "https://")
    ensures ForwardHost(scheme + host + [':'] + DecimalString(n)) == host
    ensures ForwardPort(scheme + host + [':'] + DecimalString(n), listenPort) == Some(n)
  {
    var d := DecimalString(n);
    SchemesAreSchemeLike();
    NoSchemeAcrossPort(host, d, "http://");
    NoSchemeAcrossPort(host, d, "https://");
    assert scheme + host + [':'] + d == scheme + (host + [':'] + d);
    StripSchemesPrefix(scheme, host + [':'] + d);
    assert ':' !in d by {
      assert forall q :: 0 <= q < |d| ==> IsDigit(d[q]);
    }
    PortExplicit(scheme + host + [':'] + d, listenPort, host, d, []);
    ParseIntUnsigned(n);
  }

  /**
   * The forwarding examples: `http://backend` on a site listening on 443 goes
   * to 443 over https, `http://backend:8080` to 8080 over https and
   * `http://backend:80` to 80 over http.
   */
  lemma ForwardingExamples(host: string, listenPort: int)
    requires ':' !in host && !Occurs(host, "http://") && !Occurs(host, "https://")
    ensures ForwardPort("http://" + host, 443) == Some(443) && Scheme(443) == "https"
    ensures ForwardPort("http://" + host + ":8080", listenPort) == Some(8080) && Scheme(8080) == "https"
    ensures ForwardPort("http://" + host + ":80", listenPort) == Some(80) && Scheme(80) == "http"
  {
    DefaultPortTarget("http://", host, 443);
    assert DecimalString(8080) == "8080" && DecimalString(80) == "80";
    assert "http://" + host + ":8080" == "http://" + host + [':'] + DecimalString(8080);
    assert "http://" + host + ":80" == "http://" + host + [':'] + DecimalString(80);
    ExplicitPortTarget("http://", host, 8080, listenPort);
    ExplicitPortTarget("http://", host, 80, listenPort);
  }

  // ---------------------------------------------------------------------------
  // Advanced configuration

  /** The whitespace that opens and closes each fragment. */
  const Margin: string := "\n        "

  /** A fragment without its margins: starts at `location`, ends at the closing brace. */
  function Body(rule: LocationRule): (r: string)
    ensures |r| > 0 && r[0] == 'l' && r[|r| - 1] == '}'
  {
    "location " + rule.path + " {\n            proxy_pass " + rule.proxyPass + ";\n        }"
  }

  /**
   * The f-string appended for one location, with the target as written in the
   * block: a newline and eight spaces, the body, a newline and eight spaces.
   */
  function Fragment(rule: LocationRule): (r: string) {
    Margin + Body(rule) + Margin
  }

  /** What the `+=` loop has built after visiting the given locations. */
  function Concat(rules: seq<LocationRule>): (r: string) {
    if rules == [] then [] else Concat(rules[..|rules| - 1]) + Fragment(rules[|rules| - 1])
  }

  /** The `advanced_config` field: the accumulated text, stripped. */
  function AdvancedConfig(rules: seq<LocationRule>): string {
    Strip(Concat(rules))
  }

  /** The bodies in order, two margins between neighbours. */
  function Joined(rules: seq<LocationRule>): (r: string)
    requires |rules| > 0
    ensures |r| > 0 && r[0] == 'l' && r[|r| - 1] == '}'
  {
    if |rules| == 1 then Body(rules[0])
    else Joined(rules[..|rules| - 1]) + Margin + Margin + Body(rules[|rules| - 1])
  }

  /** One more location appends its fragment. */
  lemma ConcatSnoc(rules: seq<LocationRule>, rule: LocationRule)
    ensures Concat(rules + [rule]) == Concat(rules) + Fragment(rule)
  {
    assert (rules + [rule])[..|rules|] == rules;
  }

  lemma Regroup(m: string, j: string, b: string)
    ensures (m + j + m) + (m + b + m) == m + (j + m + m + b) + m
  {
  }

  /** The accumulated text of a non-empty list is its joined bodies inside one margin each side. */
  lemma {:induction false} ConcatFramed(rules: seq<LocationRule>)
    requires |rules| > 0
    ensures Concat(rules) == Margin + Joined(rules) + Margin
  {
    var n := |rules|;
    if n == 1 {
      assert rules[..0] == [];
    } else {
      ConcatFramed(rules[..n - 1]);
      Regroup(Margin, Joined(rules[..n - 1]), Body(rules[n - 1]));
    }
  }

  /** Stripping removes exactly the outer margins: what is left starts and ends with a fragment body. */
  lemma AdvancedConfigJoined(rules: seq<LocationRule>)
    requires |rules| > 0
    ensures AdvancedConfig(rules) == Joined(rules)
  {
    ConcatFramed(rules);
    MarginSpaces();
    var j := Joined(rules);
    assert !IsSpace(j[0]) && !IsSpace(j[|j| - 1]);
    StripPadded(Margin, j, Margin);
  }

  lemma MarginSpaces()
    ensures AllSpaces(Margin)
  {
  }

  /** The loop step: visiting location i appends its fragment. */
  lemma ConcatStep(rules: seq<LocationRule>, i: nat)
    requires i < |rules|
    ensures Concat(rules[..i + 1]) == Concat(rules[..i]) + Fragment(rules[i])
  {
    assert rules[..i + 1][..i] == rules[..i];
  }

  /** The loop's text for a concatenated list is the texts of the two parts, in order. */
  lemma {:induction false} ConcatAppend(a: seq<LocationRule>, b: seq<LocationRule>)
    ensures Concat(a + b) == Concat(a) + Concat(b)
    decreases |b|
  {
    if b == [] {
      assert a + b == a;
    } else {
      var init, last := b[..|b| - 1], b[|b| - 1];
      assert b == init + [last];
      assert a + b == (a + init) + [last];
      ConcatSnoc(a + init, last);
      ConcatSnoc(init, last);
      ConcatAppend(a, init);
      Associative(Concat(a), Concat(init), Fragment(last));
    }
  }

  /** Location i contributes one verbatim fragment, after those of the earlier locations and before the later ones. */
  lemma ConcatPiece(rules: seq<LocationRule>, i: nat)
    requires i < |rules|
    ensures Concat(rules) == Concat(rules[..i]) + Fragment(rules[i]) + Concat(rules[i + 1..])
  {
    assert rules == rules[..i + 1] + rules[i + 1..];
    ConcatAppend(rules[..i + 1], rules[i + 1..]);
    ConcatStep(rules, i);
  }

  // ---------------------------------------------------------------------------
  // The conversion

  /**
   * convert_to_npm_config. It fails as the source raises: first on an empty
   * location list, then on the first location whose port segment is not an
   * integer (the first location's port is parsed before the loop, and the loop
   * parses every location's port again although it never uses it).
   */
  method ConvertToNpmConfig(server: SiteRecord) returns (r: Result<ProxyHostRequest, ConvertError>)
    ensures r == Failure(NoLocations) <==> server.locations == []
    ensures r.Success? <==>
              |server.locations| > 0 &&
              forall i :: 0 <= i < |server.locations| ==>
                ForwardPort(server.locations[i].proxyPass, server.listenPort).Some?
    ensures r.Failure? && r.error.InvalidPort? ==>
              var k := r.error.location;
              k < |server.locations| &&
              ForwardPort(server.locations[k].proxyPass, server.listenPort).None? &&
              forall i :: 0 <= i < k ==> ForwardPort(server.locations[i].proxyPass, server.listenPort).Some?
    ensures r.Success? ==>
              var target := server.locations[0].proxyPass;
              var req := r.value;
              req.domainNames == [server.serverName] &&
              req.forwardHost == ForwardHost(target) &&
              Some(req.forwardPort) == ForwardPort(target, server.listenPort) &&
              (req.forwardScheme == "http" <==> req.forwardPort == 80) &&
              (req.forwardScheme == "http" || req.forwardScheme == "https") &&
              req.advancedConfig == AdvancedConfig(server.locations) &&
              req.accessListId == 0 && req.certificateId == 0 &&
              req.sslForced && !req.cachingEnabled && !req.blockExploits &&
              req.meta == Meta(false, false)
  {
    var locations := server.locations;
    if |locations| == 0 {
      return Failure(NoLocations);
    }
    var target := locations[0].proxyPass;
    var host := ForwardHost(target);
    var port := ForwardPort(target, server.listenPort);
    if port.None? {
      return Failure(InvalidPort(0));
    }
    var advanced: string := [];
    var i := 0;
    while i < |locations|
      invariant 0 <= i <= |locations|
      invariant advanced == Concat(locations[..i])
      invariant forall q :: 0 <= q < i ==> ForwardPort(locations[q].proxyPass, server.listenPort).Some?
    {
      var loc := locations[i];
      var locPort := ForwardPort(loc.proxyPass, server.listenPort);
      if locPort.None? {
        return Failure(InvalidPort(i));
      }
      ConcatStep(locations, i);
      assert forall q :: 0 <= q < i + 1 ==> ForwardPort(locations[q].proxyPass, server.listenPort).Some?;
      assert Concat(locations[..i + 1]) == advanced + Fragment(loc);
      advanced := advanced + Fragment(loc);
      i := i + 1;
    }
    assert locations[..i] == locations;
    return Success(ProxyHostRequest(
      [server.serverName], Scheme(port.value), host, port.value, 0, 0,
      true, false, false, Strip(advanced), Meta(false, false)));
  }
}
