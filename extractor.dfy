/**
 * `parse_nginx_config`: the configuration text is cut into server blocks at
 * every `\n\s*server\s*\{` boundary, the text before the first boundary is
 * dropped, and each block becomes one site record holding the first match of
 * each scalar directive and every `location ... proxy_pass ...;` rule in order.
 * A block that lacks any scalar directive makes the script raise, so the whole
 * parse fails and no record at all is returned.
 */
module Extractor {
  import opened Wrappers
  import opened Text
  import opened Patterns

  /** One `{"path": ..., "proxy_pass": ...}` entry of a record's location list. */
  datatype LocationRule = LocationRule(path: string, proxyPass: string)

  /** The dictionary the script builds for one server block. */
  datatype SiteRecord = SiteRecord(
    serverName: string,
    sslCertificate: string,
    sslCertificateKey: string,
    listenPort: nat,
    locations: seq<LocationRule>)

  /** The four scalar directives, in the order the script looks them up. */
  datatype Directive = ServerName | SslCertificate | SslCertificateKey | Listen

  /** Block `block` (counting from 0) has no match for `directive`: `None.group` raises. */
  datatype ParseError = MissingDirective(block: nat, directive: Directive)

  function PatternOf(d: Directive): (pat: Pattern) {
    match d
    case ServerName => Scalar("server_name")
    case SslCertificate => Scalar("ssl_certificate")
    case SslCertificateKey => Scalar("ssl_certificate_key")
    case Listen => ListenSsl
  }

  /** The position of a directive's lookup among the four. */
  function Rank(d: Directive): nat {
    match d
    case ServerName => 0
    case SslCertificate => 1
    case SslCertificateKey => 2
    case Listen => 3
  }

  /** `re.search(pattern, block).group(1)`, or None where the search finds nothing. */
  function Capture(d: Directive, block: string): (r: Option<string>)
    ensures r.None? <==> NoMatchIn(Matches(PatternOf(d), block), 0, |block| + 1)
  {
    match Search(Matches(PatternOf(d), block), 0)
    case None => None
    case Some(m) => Some(Group(block, m, 0))
  }

  // ---------------------------------------------------------------------------
  // The blocks: re.split(r'\n\s*server\s*\{', text)[1:]

  function Blocks(text: string): (blocks: seq<string>) {
    SplitFrom(text, 0)[1..]
  }

  /**
   * There is one block per boundary, and block i is the text from the end of
   * boundary i to the start of boundary i + 1, or to the end of the text.
   */
  lemma BlocksFollowBoundaries(text: string)
    ensures var ms := FindAllFrom(Matches(ServerBoundary, text), 0);
      |Blocks(text)| == |ms| &&
      forall i :: 0 <= i < |ms| ==>
        ms[i].end <= PieceEnd(text, ms, i + 1) <= |text| &&
        Blocks(text)[i] == text[ms[i].end..PieceEnd(text, ms, i + 1)]
  {
    var ms := FindAllFrom(Matches(ServerBoundary, text), 0);
    SplitFromPieces(text, 0);
    forall i | 0 <= i < |ms|
      ensures ms[i].end <= PieceEnd(text, ms, i + 1) <= |text| &&
        Blocks(text)[i] == text[ms[i].end..PieceEnd(text, ms, i + 1)]
    {
      assert IsPiece(text, ms, 0, SplitFrom(text, 0), i + 1);
    }
  }

  /** A boundary begins with a newline, so text without one has no blocks at all. */
  lemma NoNewlineNoBlocks(text: string)
    requires '\n' !in text
    ensures Blocks(text) == []
  {
    forall q | 0 <= q <= |text| ensures MatchAt(ServerBoundary, text, q).None? {
      if q < |text| {
        assert text[q] != '\n';
      }
    }
    assert NoMatchIn(Matches(ServerBoundary, text), 0, |text| + 1);
  }

  /** Text with no boundary, such as a lone `server {` at the very start, yields no blocks. */
  lemma NoBoundaryNoBlocks(text: string)
    requires NoMatchIn(Matches(ServerBoundary, text), 0, |text| + 1)
    ensures Blocks(text) == []
  {
    BlocksFollowBoundaries(text);
    assert FindAllFrom(Matches(ServerBoundary, text), 0) == [];
  }

  // ---------------------------------------------------------------------------
  // One block

  /** The list comprehension over `re.findall` of the location pattern. */
  function Locations(block: string): (rules: seq<LocationRule>)
    ensures |rules| == |FindAllFrom(Matches(LocationProxy, block), 0)|
  {
    var ms := FindAllFrom(Matches(LocationProxy, block), 0);
    seq(|ms|, i requires 0 <= i < |ms| => RuleOf(block, ms, i))
  }

  /** `{"path": loc[0], "proxy_pass": loc[1]}` for match i of the findall. */
  function RuleOf(block: string, ms: seq<Match>, i: nat): LocationRule
    requires i < |ms| && InOrder(Matches(LocationProxy, block), ms, 0, i)
  {
    LocationRule(Group(block, ms[i], 0), Group(block, ms[i], 1))
  }

  /** All four lookups of a block, in the script's order, then the record. */
  function ParseBlock(block: string): (r: Result<SiteRecord, Directive>)
    ensures r.Success? <==>
              Capture(ServerName, block).Some? && Capture(SslCertificate, block).Some? &&
              Capture(SslCertificateKey, block).Some? && Capture(Listen, block).Some?
    ensures r.Failure? ==> Capture(r.error, block).None?
    ensures r.Failure? ==>
              (Rank(r.error) > 0 ==> Capture(ServerName, block).Some?) &&
              (Rank(r.error) > 1 ==> Capture(SslCertificate, block).Some?) &&
              (Rank(r.error) > 2 ==> Capture(SslCertificateKey, block).Some?)
  {
    Assemble(Capture(ServerName, block), Capture(SslCertificate, block), Capture(SslCertificateKey, block),
             Capture(Listen, block), block)
  }

  /** The record from the four lookups in the script's order, or the first directive whose lookup failed. */
  function Assemble(name: Option<string>, cert: Option<string>, key: Option<string>, port: Option<string>,
                    block: string): (r: Result<SiteRecord, Directive>)
    ensures r.Success? <==> name.Some? && cert.Some? && key.Some? && port.Some?
    ensures r.Failure? ==>
              (r.error == ServerName && name.None?) ||
              (r.error == SslCertificate && name.Some? && cert.None?) ||
              (r.error == SslCertificateKey && name.Some? && cert.Some? && key.None?) ||
              (r.error == Listen && name.Some? && cert.Some? && key.Some? && port.None?)
  {
    if name.None? then Failure(ServerName)
    else if cert.None? then Failure(SslCertificate)
    else if key.None? then Failure(SslCertificateKey)
    else if port.None? then Failure(Listen)
    else Success(SiteRecord(name.value, cert.value, key.value, DecimalValue(port.value), Locations(block)))
  }

  /**
   * What each field of a parsed block is in terms of the block's text: the
   * scalar fields are the tokens of the first `<name> <token>;` of their
   * directive, the listen port is `int()` of the digits of the first
   * `listen <address>:<digits> ssl;`, and location i is the path and target of
   * the i-th match of the location scan, taken from its greediest shape.
   */
  lemma ParseBlockRecord(block: string)
    requires ParseBlock(block).Success?
    ensures var site := ParseBlock(block).value;
      FirstScalar(ServerName, block, site.serverName) &&
      FirstScalar(SslCertificate, block, site.sslCertificate) &&
      FirstScalar(SslCertificateKey, block, site.sslCertificateKey) &&
      FirstListenPort(block, site.listenPort)
    ensures var site := ParseBlock(block).value;
      var ms := FindAllFrom(Matches(LocationProxy, block), 0);
      |site.locations| == |ms| &&
      forall i :: 0 <= i < |ms| ==> ScannedRule(block, ms, i, site.locations[i])
  {
    var site := ParseBlock(block).value;
    ParseBlockFields(block);
    ScalarCaptureIsFirst(ServerName, block);
    ScalarCaptureIsFirst(SslCertificate, block);
    ScalarCaptureIsFirst(SslCertificateKey, block);
    ListenPortIsInt(block);
    var ms := FindAllFrom(Matches(LocationProxy, block), 0);
    forall i | 0 <= i < |ms| ensures ScannedRule(block, ms, i, site.locations[i]) {
      LocationRuleIsScanned(block, i);
    }
  }

  /** The fields of a parsed block are the captures of its lookups and the findall's rules. */
  lemma ParseBlockFields(block: string)
    requires ParseBlock(block).Success?
    ensures var site := ParseBlock(block).value;
      Some(site.serverName) == Capture(ServerName, block) &&
      Some(site.sslCertificate) == Capture(SslCertificate, block) &&
      Some(site.sslCertificateKey) == Capture(SslCertificateKey, block) &&
      site.listenPort == DecimalValue(Capture(Listen, block).value) &&
      site.locations == Locations(block)
  {
  }

  /** v is the token of the first place in the block where `<name> <token>;` occurs for d. */
  ghost predicate FirstScalar(d: Directive, block: string, v: string)
    requires d != Listen
  {
    exists p: nat, b, c :: ScalarShape(PatternOf(d).name, block, p, b, c) &&
      NoMatchIn(Matches(PatternOf(d), block), 0, p) && v == block[b..c]
  }

  /** n is `int()` of the digits of the first `listen <address>:<digits> ssl;` in the block. */
  ghost predicate FirstListenPort(block: string, n: int) {
    exists p: nat, b, c, t, u :: FirstListen(block, p, b, c, t, u) && ParseInt(block[c + 1..t]) == Some(n)
  }

  /** rule is the i-th match of the location scan, its path and target delimited by its greediest shape. */
  ghost predicate ScannedRule(block: string, ms: seq<Match>, i: nat, rule: LocationRule)
    requires i < |ms|
  {
    ScanStep(Matches(LocationProxy, block), 0, ms, i) &&
    exists b, c, e, j, v, k :: LocationShape(block, ms[i].start, b, c, e, j, v, k) &&
      Greediest(block, ms[i].start, j, k) && rule == LocationRule(block[b..c], block[v..k])
  }

  /**
   * A scalar field is the token of the FIRST place in the block where
   * `<name> <token>;` occurs: the name, whitespace, a token with no whitespace
   * and no ';', then ';'.
   */
  lemma ScalarCaptureIsFirst(d: Directive, block: string)
    requires d != Listen && Capture(d, block).Some?
    ensures FirstScalar(d, block, Capture(d, block).value)
  {
    var m := Search(Matches(PatternOf(d), block), 0).value;
    ScalarAtIff(PatternOf(d).name, block, m.start);
    var b, c := m.spans[0].0, m.spans[0].1;
    assert ScalarShape(PatternOf(d).name, block, m.start, b, c);
  }

  /** A `listen <address>:<digits> ssl;` at p, at no position before which the pattern matches. */
  ghost predicate FirstListen(block: string, p: nat, b: int, c: int, t: int, u: int) {
    ListenShape(block, p, b, c, t, u) && NoMatchIn(Matches(ListenSsl, block), 0, p)
  }

  /** The listen port is the digit run of the FIRST `listen <address>:<digits> ssl;` in the block. */
  lemma ListenCaptureIsFirst(block: string)
    requires Capture(Listen, block).Some?
    ensures exists p: nat, b, c, t, u :: FirstListen(block, p, b, c, t, u) &&
              Capture(Listen, block).value == block[c + 1..t]
  {
    var m := Search(Matches(ListenSsl, block), 0).value;
    var b, u := FirstListenOf(block, m);
    assert Capture(Listen, block).value == block[m.spans[0].0..m.spans[0].1];
  }

  lemma FirstListenOf(block: string, m: Match) returns (b: int, u: int)
    requires m.start <= |block| && MatchAt(ListenSsl, block, m.start) == Some(m)
    requires NoMatchIn(Matches(ListenSsl, block), 0, m.start)
    ensures FirstListen(block, m.start, b, m.spans[0].0 - 1, m.spans[0].1, u)
  {
    b, u := ListenAtWitness(block, m);
  }

  /** `int()` of the captured digit run is its decimal value, the record's listen port. */
  lemma ListenPortIsInt(block: string)
    requires Capture(Listen, block).Some?
    ensures ParseInt(Capture(Listen, block).value) == Some(DecimalValue(Capture(Listen, block).value))
    ensures FirstListenPort(block, DecimalValue(Capture(Listen, block).value))
  {
    ListenCaptureIsFirst(block);
    var p: nat, b, c, t, u :| FirstListen(block, p, b, c, t, u) && Capture(Listen, block).value == block[c + 1..t];
    var g := block[c + 1..t];
    forall q | 0 <= q < |g| ensures IsDigit(g[q]) {
      assert InClass(block[c + 1 + q], Digit);
    }
    ParseIntDigits(g);
  }

  /** `ssl_certificate` needs whitespace after the name, so it never matches on a `ssl_certificate_key` line. */
  lemma CertificateSkipsKeyLine(s: string, p: nat)
    requires p <= |s| && LiteralAt(s, p, "ssl_certificate_key")
    ensures MatchAt(PatternOf(SslCertificate), s, p).None?
  {
    assert s[p + 15] == "ssl_certificate_key"[15];
    assert LiteralAt(s, p, "ssl_certificate") by {
      assert s[p..p + 15] == s[p..p + 19][..15];
    }
  }

  /** A value of two words is not a token followed by ';': `server_name a b;` does not match. */
  lemma TwoWordServerNameRejected()
    ensures MatchAt(PatternOf(ServerName), "server_name a b;", 0).None?
  {
    var s := "server_name a b;";
    assert LiteralAt(s, 0, "server_name");
    assert Span(s, 12, Space) == 12;
    assert Span(s, 11, Space) == 12;
    assert Span(s, 13, TokenChar) == 13;
    assert Span(s, 12, TokenChar) == 13;
  }

  /**
   * Rule i of a block is the i-th match of the location scan: it starts at the
   * leftmost match after rule i - 1 ends, its path is the text after `location`
   * and its target the text after `proxy_pass`, with the body running to the
   * last `proxy_pass` before the first '}'.
   */
  lemma LocationRuleIsScanned(block: string, i: nat)
    requires i < |Locations(block)|
    ensures var ms := FindAllFrom(Matches(LocationProxy, block), 0);
      ScanStep(Matches(LocationProxy, block), 0, ms, i) &&
      exists b, c, e, j, v, k :: LocationShape(block, ms[i].start, b, c, e, j, v, k) &&
        Greediest(block, ms[i].start, j, k) &&
        Locations(block)[i] == LocationRule(block[b..c], block[v..k])
  {
    var ms := FindAllFrom(Matches(LocationProxy, block), 0);
    FindAllIsScan(Matches(LocationProxy, block), 0);
    assert ScanStep(Matches(LocationProxy, block), 0, ms, i);
    assert InOrder(Matches(LocationProxy, block), ms, 0, i);
    assert Locations(block)[i] == RuleOf(block, ms, i);
    RuleShape(block, ms, i);
  }

  /** The rule built from a location match names the path and target its shape delimits. */
  lemma RuleShape(block: string, ms: seq<Match>, i: nat)
    requires i < |ms| && InOrder(Matches(LocationProxy, block), ms, 0, i)
    ensures exists b, c, e, j, v, k :: LocationShape(block, ms[i].start, b, c, e, j, v, k) &&
              Greediest(block, ms[i].start, j, k) &&
              RuleOf(block, ms, i) == LocationRule(block[b..c], block[v..k])
  {
    var p := ms[i].start;
    LocationAtIff(block, p);
    var b, c, e, j, v, k :| LocationShape(block, p, b, c, e, j, v, k) && Greediest(block, p, j, k) &&
      LocationAt(block, p).value.spans[0] == (b, c) && LocationAt(block, p).value.spans[1] == (v, k);
    assert RuleOf(block, ms, i) == LocationRule(block[b..c], block[v..k]);
  }

  /** A block in which the location pattern matches nowhere yields no rules. */
  lemma NoLocationMatchNoRules(block: string)
    requires NoMatchIn(Matches(LocationProxy, block), 0, |block| + 1)
    ensures Locations(block) == []
  {
    assert Search(Matches(LocationProxy, block), 0).None?;
  }

  // ---------------------------------------------------------------------------
  // The whole text

  /**
   * `parse_nginx_config`: split the text into blocks and parse them in order;
   * the first block with a missing directive aborts the whole parse.
   */
  method ParseNginxConfig(config: string) returns (r: Result<seq<SiteRecord>, ParseError>)
    ensures r.Success? <==> forall i :: 0 <= i < |Blocks(config)| ==> ParseBlock(Blocks(config)[i]).Success?
    ensures r.Success? ==>
              |r.value| == |Blocks(config)| &&
              forall i :: 0 <= i < |r.value| ==> Success(r.value[i]) == ParseBlock(Blocks(config)[i])
    ensures r.Failure? ==>
              r.error.block < |Blocks(config)| &&
              ParseBlock(Blocks(config)[r.error.block]) == Failure(r.error.directive) &&
              forall i :: 0 <= i < r.error.block ==> ParseBlock(Blocks(config)[i]).Success?
  {
    r := ParseBlocks(Blocks(config), ParseBlock);
  }

  /**
   * The loop over `server_blocks[1:]`, for any per-block parse: one record per
   * block, in order, until the first block whose parse fails. Taking the parse
   * as a parameter keeps the loop's proof apart from the regular expressions.
   */
  method ParseBlocks(blocks: seq<string>, parse: string -> Result<SiteRecord, Directive>)
    returns (r: Result<seq<SiteRecord>, ParseError>)
    ensures r.Success? <==> forall i :: 0 <= i < |blocks| ==> parse(blocks[i]).Success?
    ensures r.Success? ==>
              |r.value| == |blocks| &&
              forall i :: 0 <= i < |r.value| ==> Success(r.value[i]) == parse(blocks[i])
    ensures r.Failure? ==>
              r.error.block < |blocks| &&
              parse(blocks[r.error.block]) == Failure(r.error.directive) &&
              forall i :: 0 <= i < r.error.block ==> parse(blocks[i]).Success?
  {
    var servers: seq<SiteRecord> := [];
    var i := 0;
    while i < |blocks|
      invariant 0 <= i <= |blocks| && |servers| == i
      invariant forall q :: 0 <= q < i ==> Success(servers[q]) == parse(blocks[q])
    {
      var parsed := parse(blocks[i]);
      if parsed.Failure? {
        return Failure(MissingDirective(i, parsed.error));
      }
      servers := servers + [parsed.value];
      i := i + 1;
    }
    return Success(servers);
  }
}
