/**
 * The fixed regular expressions of the migration script, each written as a
 * scanner over the text, and the three `re` functions the script applies to
 * them: `re.search` (leftmost match), `re.findall` (successive non-overlapping
 * matches) and `re.split` (the text between those matches).
 *
 * Each scanner is proved equal to a declarative description of what the
 * pattern matches ("shape" predicates), including the choices Python's
 * backtracking makes where a pattern admits several ways to match.
 */
module Patterns {
  import opened Wrappers
  import opened Text

  datatype Pattern =
    | ServerBoundary        // \n\s*server\s*\{
    | Scalar(name: string)  // <name>\s+([^\s;]+);
    | ListenSsl             // listen\s+\S+:(\d+)\s+ssl;
    | LocationProxy         // location\s+([^\s\{]+)\s*\{[^\}]*proxy_pass\s+(\S+);

  /**
   * A match: the text s[start..end] and, for each capturing group in order, the
   * start and end of the text it captured (what Python's `Match.span(i)` gives).
   */
  datatype Match = Match(start: nat, end: nat, spans: seq<(nat, nat)>)

  /** Every group lies inside the match. */
  predicate Spanned(m: Match) {
    forall i :: 0 <= i < |m.spans| ==> m.start <= m.spans[i].0 <= m.spans[i].1 <= m.end
  }

  /** The text captured by group i of a match in s (Python's `Match.group(i + 1)`). */
  function Group(s: string, m: Match, i: nat): string
    requires m.end <= |s| && Spanned(m) && i < |m.spans|
  {
    s[m.spans[i].0..m.spans[i].1]
  }

  function GroupCount(pat: Pattern): nat {
    match pat
    case ServerBoundary => 0
    case Scalar(_) => 1
    case ListenSsl => 1
    case LocationProxy => 2
  }

  // ---------------------------------------------------------------------------
  // \n\s*server\s*\{

  function BoundaryAt(s: string, p: nat): (r: Option<Match>)
    requires p <= |s|
    ensures r.Some? ==> r.value.start == p && p < r.value.end <= |s| && r.value.spans == []
  {
    if p < |s| && s[p] == '\n' then
      var a := Span(s, p + 1, Space);
      if LiteralAt(s, a, "server") then
        var b := Span(s, a + 6, Space);
        if b < |s| && s[b] == '{' then Some(Match(p, b + 1, [])) else None
      else None
    else None
  }

  /** A newline at p, whitespace s[p+1..a], "server" at a, whitespace s[a+6..b], '{' at b. */
  ghost predicate BoundaryShape(s: string, p: nat, a: int, b: int) {
    p < a && a + 6 <= b < |s| && s[p] == '\n' && AllIn(s, p + 1, a, Space) &&
    LiteralAt(s, a, "server") && AllIn(s, a + 6, b, Space) && s[b] == '{'
  }

  lemma BoundaryAtIff(s: string, p: nat)
    requires p <= |s|
    ensures BoundaryAt(s, p).Some? <==> exists a, b :: BoundaryShape(s, p, a, b)
    ensures forall a, b :: BoundaryShape(s, p, a, b) ==> BoundaryAt(s, p) == Some(Match(p, b + 1, []))
  {
    if BoundaryAt(s, p).Some? {
      var a := Span(s, p + 1, Space);
      var b := Span(s, a + 6, Space);
      assert BoundaryShape(s, p, a, b);
    }
    forall a, b | BoundaryShape(s, p, a, b) ensures BoundaryAt(s, p) == Some(Match(p, b + 1, [])) {
      assert s[a] == "server"[0];
      SpanUnique(s, p + 1, a, Space);
      SpanUnique(s, a + 6, b, Space);
    }
  }

  // ---------------------------------------------------------------------------
  // <name>\s+([^\s;]+);

  function ScalarAt(name: string, s: string, p: nat): (r: Option<Match>)
    requires p <= |s|
    ensures r.Some? ==> r.value.start == p && p < r.value.end <= |s| && |r.value.spans| == 1 && Spanned(r.value)
  {
    if LiteralAt(s, p, name) then
      var a := p + |name|;
      var b := Span(s, a, Space);
      var c := Span(s, b, TokenChar);
      if a < b < c < |s| && s[c] == ';' then Some(Match(p, c + 1, [(b, c)])) else None
    else None
  }

  /** name at p, whitespace up to b, a token s[b..c] with no whitespace and no ';', then ';' at c. */
  ghost predicate ScalarShape(name: string, s: string, p: nat, b: int, c: int) {
    LiteralAt(s, p, name) && p + |name| < b < c < |s| &&
    AllIn(s, p + |name|, b, Space) && AllIn(s, b, c, TokenChar) && s[c] == ';'
  }

  lemma ScalarAtIff(name: string, s: string, p: nat)
    requires p <= |s|
    ensures ScalarAt(name, s, p).Some? <==> exists b, c :: ScalarShape(name, s, p, b, c)
    ensures forall b, c :: ScalarShape(name, s, p, b, c) ==>
              ScalarAt(name, s, p) == Some(Match(p, c + 1, [(b, c)]))
  {
    if ScalarAt(name, s, p).Some? {
      var b := Span(s, p + |name|, Space);
      var c := Span(s, b, TokenChar);
      assert ScalarShape(name, s, p, b, c);
    }
    forall b, c | ScalarShape(name, s, p, b, c)
      ensures ScalarAt(name, s, p) == Some(Match(p, c + 1, [(b, c)]))
    {
      assert InClass(s[b], TokenChar);
      SpanUnique(s, p + |name|, b, Space);
      SpanUnique(s, b, c, TokenChar);
    }
  }

  // ---------------------------------------------------------------------------
  // listen\s+\S+:(\d+)\s+ssl;

  function ListenAt(s: string, p: nat): (r: Option<Match>)
    requires p <= |s|
    ensures r.Some? ==> r.value.start == p && p < r.value.end <= |s| && |r.value.spans| == 1 && Spanned(r.value)
  {
    if LiteralAt(s, p, "listen") then
      var a := p + 6;
      var b := Span(s, a, Space);
      var t := Span(s, b, NonSpace);
      var d := SpanBack(s, b, t, Digit);
      if a < b && b + 1 < d < t && s[d - 1] == ':' then
        var u := Span(s, t, Space);
        if t < u && LiteralAt(s, u, "ssl;") then Some(Match(p, u + 4, [(d, t)])) else None
      else None
    else None
  }

  /**
   * "listen" at p, whitespace up to b, an address s[b..c] without whitespace, ':' at c,
   * digits s[c+1..t], whitespace s[t..u], "ssl;" at u.
   */
  ghost predicate ListenShape(s: string, p: nat, b: int, c: int, t: int, u: int) {
    LiteralAt(s, p, "listen") && p + 6 < b < c && c + 1 < t < u <= |s| &&
    AllIn(s, p + 6, b, Space) && AllIn(s, b, c, NonSpace) && s[c] == ':' &&
    AllIn(s, c + 1, t, Digit) && AllIn(s, t, u, Space) && LiteralAt(s, u, "ssl;")
  }

  lemma ListenAtIff(s: string, p: nat)
    requires p <= |s|
    ensures ListenAt(s, p).Some? <==> exists b, c, t, u :: ListenShape(s, p, b, c, t, u)
    ensures forall b, c, t, u :: ListenShape(s, p, b, c, t, u) ==>
              ListenAt(s, p) == Some(Match(p, u + 4, [(c + 1, t)]))
  {
    if ListenAt(s, p).Some? {
      var b, u := ListenAtWitness(s, ListenAt(s, p).value);
    }
    forall b, c, t, u | ListenShape(s, p, b, c, t, u)
      ensures ListenAt(s, p) == Some(Match(p, u + 4, [(c + 1, t)]))
    {
      ListenShapeUnique(s, p, b, c, t, u);
    }
  }

  /** The positions of the shape a listen match m has; its group is s[c + 1..t]. */
  lemma ListenAtWitness(s: string, m: Match) returns (b: int, u: int)
    requires m.start <= |s| && ListenAt(s, m.start) == Some(m)
    ensures ListenShape(s, m.start, b, m.spans[0].0 - 1, m.spans[0].1, u)
  {
    var p := m.start;
    b := Span(s, p + 6, Space);
    var t := Span(s, b, NonSpace);
    var d := SpanBack(s, b, t, Digit);
    u := Span(s, t, Space);
    assert AllIn(s, b, d - 1, NonSpace);
  }

  lemma ListenShapeUnique(s: string, p: nat, b: int, c: int, t: int, u: int)
    requires ListenShape(s, p, b, c, t, u)
    ensures ListenAt(s, p) == Some(Match(p, u + 4, [(c + 1, t)]))
  {
    assert InClass(s[b], NonSpace);
    SpanUnique(s, p + 6, b, Space);
    AddressRun(s, b, c, t);
    assert InClass(s[t], Space);
    SpanUnique(s, b, t, NonSpace);
    SpanBackUnique(s, b, c + 1, t, Digit);
    assert s[u] == "ssl;"[0];
    SpanUnique(s, t, u, Space);
  }

  // ---------------------------------------------------------------------------
  // location\s+([^\s\{]+)\s*\{[^\}]*proxy_pass\s+(\S+);

  /**
   * The tail `proxy_pass\s+(\S+);` at j: where the captured target starts and where its ';' is.
   * `\S+` is greedy, so the target runs to the LAST ';' of the token that follows.
   */
  function ProxyPassAt(s: string, j: nat): (r: Option<(nat, nat)>)
    requires j <= |s|
    ensures r.Some? ==> j < r.value.0 < r.value.1 < |s|
  {
    if LiteralAt(s, j, "proxy_pass") then
      var a := j + 10;
      var v := Span(s, a, Space);
      var w := Span(s, v, NonSpace);
      if a < v < w then
        match LastIndexOf(s, v + 1, w, ';')
        case Some(k) => Some((v, k))
        case None => None
      else None
    else None
  }

  /** "proxy_pass" at j, whitespace up to v, a target s[v..k] without whitespace, ';' at k. */
  ghost predicate ProxyShape(s: string, j: int, v: int, k: int) {
    LiteralAt(s, j, "proxy_pass") && j + 10 < v < k < |s| &&
    AllIn(s, j + 10, v, Space) && AllIn(s, v, k, NonSpace) && s[k] == ';'
  }

  lemma ProxyPassAtIff(s: string, j: nat)
    requires j <= |s|
    ensures ProxyPassAt(s, j).Some? <==> exists v, k :: ProxyShape(s, j, v, k)
    ensures ProxyPassAt(s, j).Some? ==>
              ProxyShape(s, j, ProxyPassAt(s, j).value.0, ProxyPassAt(s, j).value.1) &&
              forall v, k :: ProxyShape(s, j, v, k) ==>
                v == ProxyPassAt(s, j).value.0 && k <= ProxyPassAt(s, j).value.1
  {
    forall v, k | ProxyShape(s, j, v, k)
      ensures ProxyPassAt(s, j).Some? && v == ProxyPassAt(s, j).value.0 && k <= ProxyPassAt(s, j).value.1
    {
      ProxyShapeBound(s, j, v, k);
    }
    if ProxyPassAt(s, j).Some? {
      ProxyPassShape(s, j);
    }
  }

  /** What the scanner finds at j is one way the tail matches there. */
  lemma ProxyPassShape(s: string, j: nat)
    requires j <= |s| && ProxyPassAt(s, j).Some?
    ensures ProxyShape(s, j, ProxyPassAt(s, j).value.0, ProxyPassAt(s, j).value.1)
  {
    var v := Span(s, j + 10, Space);
    var w := Span(s, v, NonSpace);
    var k := LastIndexOf(s, v + 1, w, ';').value;
    assert ProxyPassAt(s, j) == Some((v, k));
  }

  /** Any way the tail matches at j starts its target where the scanner does and ends it no later. */
  lemma ProxyShapeBound(s: string, j: nat, v: int, k: int)
    requires j <= |s| && ProxyShape(s, j, v, k)
    ensures ProxyPassAt(s, j).Some? && ProxyPassAt(s, j).value.0 == v && k <= ProxyPassAt(s, j).value.1
  {
    assert InClass(s[v], NonSpace);
    SpanUnique(s, j + 10, v, Space);
    var w := Span(s, v, NonSpace);
    assert InClass(s[k], NonSpace);
    assert k < w;
    assert LastIndexOf(s, v + 1, w, ';').Some?;
  }

  /** The last position j in [lo, hi] where the `proxy_pass` tail matches. */
  function LastProxyPass(s: string, lo: nat, hi: nat): (r: Option<nat>)
    requires lo <= hi <= |s|
    ensures r.Some? ==> lo <= r.value <= hi && ProxyPassAt(s, r.value).Some?
  {
    LastWhere(IsTailAt(s), lo, hi)
  }

  /** The positions of s where the `proxy_pass` tail matches. */
  function IsTailAt(s: string): (f: nat -> bool)
    ensures forall j: nat :: f(j) <==> j <= |s| && ProxyPassAt(s, j).Some?
  {
    (j: nat) => j <= |s| && ProxyPassAt(s, j).Some?
  }

  /** The last position j in [lo, hi] where f holds, scanning down from hi. */
  function LastWhere(f: nat -> bool, lo: nat, hi: nat): (r: Option<nat>)
    requires lo <= hi
    ensures r.Some? ==> lo <= r.value <= hi && f(r.value)
    decreases hi - lo
  {
    if f(hi) then Some(hi)
    else if hi == lo then None
    else LastWhere(f, lo, hi - 1)
  }

  /** Every position in [lo, hi] where f holds is at or before the one LastWhere returns. */
  lemma {:induction false} LastWhereIsLast(f: nat -> bool, lo: nat, hi: nat, j: nat)
    requires lo <= j <= hi && f(j)
    ensures LastWhere(f, lo, hi).Some? && j <= LastWhere(f, lo, hi).value
    decreases hi - lo
  {
    if !f(hi) {
      LastWhereIsLast(f, lo, hi - 1, j);
    }
  }

  /** Every position in [lo, hi] where the tail matches is at or before the one LastProxyPass returns. */
  lemma LastProxyPassIsLast(s: string, lo: nat, hi: nat, j: nat)
    requires lo <= j <= hi <= |s| && ProxyPassAt(s, j).Some?
    ensures LastProxyPass(s, lo, hi).Some? && j <= LastProxyPass(s, lo, hi).value
  {
    LastWhereIsLast(IsTailAt(s), lo, hi, j);
  }

  /**
   * The head `location\s+([^\s\{]+)\s*\{` at p: where the path starts and ends, and
   * where the '{' is.
   */
  function LocationHead(s: string, p: nat): (r: Option<(nat, nat, nat)>)
    requires p <= |s|
    ensures r.Some? ==> p + 8 < r.value.0 < r.value.1 <= r.value.2 < |s|
  {
    if LiteralAt(s, p, "location") then
      var a := p + 8;
      var b := Span(s, a, Space);
      var c := Span(s, b, PathChar);
      var e := Span(s, c, Space);
      if a < b < c && e < |s| && s[e] == '{' then Some((b, c, e)) else None
    else None
  }

  /**
   * `[^\}]*` is greedy: the body runs as far as the first '}' and then backs off
   * to the LAST position where the `proxy_pass` tail matches.
   */
  function LocationAt(s: string, p: nat): (r: Option<Match>)
    requires p <= |s|
    ensures r.Some? ==> r.value.start == p && p < r.value.end <= |s| && |r.value.spans| == 2 && Spanned(r.value)
  {
    match LocationHead(s, p)
    case None => None
    case Some((b, c, e)) => LocationBody(s, p, b, c, e)
  }

  /** The rest of a location match, once its head has been found with the '{' at e. */
  function LocationBody(s: string, p: nat, b: nat, c: nat, e: nat): (r: Option<Match>)
    requires p < b < c <= e < |s|
    ensures r.Some? ==> r.value.start == p && e < r.value.end <= |s| && |r.value.spans| == 2 && Spanned(r.value)
  {
    match LastProxyPass(s, e + 1, Span(s, e + 1, NotCloseBrace))
    case None => None
    case Some(j) =>
      var (v, k) := ProxyPassAt(s, j).value;
      Some(Match(p, k + 1, [(b, c), (v, k)]))
  }

  /**
   * "location" at p, whitespace up to b, a path s[b..c] with no whitespace and no '{',
   * whitespace s[c..e], '{' at e, a body s[e+1..j] with no '}', then the tail at j.
   */
  ghost predicate LocationShape(s: string, p: nat, b: int, c: int, e: int, j: int, v: int, k: int) {
    LiteralAt(s, p, "location") && p + 8 < b < c <= e < j <= |s| &&
    AllIn(s, p + 8, b, Space) && AllIn(s, b, c, PathChar) && AllIn(s, c, e, Space) &&
    s[e] == '{' && AllIn(s, e + 1, j, NotCloseBrace) && ProxyShape(s, j, v, k)
  }

  /** Of all the ways the pattern can match at p, the one ending its body at j and its target at k is the greediest. */
  ghost predicate Greediest(s: string, p: nat, j: int, k: int) {
    forall b', c', e', j', v', k' :: LocationShape(s, p, b', c', e', j', v', k') ==> j' < j || (j' == j && k' <= k)
  }

  lemma LocationAtIff(s: string, p: nat)
    requires p <= |s|
    ensures LocationAt(s, p).Some? <==> exists b, c, e, j, v, k :: LocationShape(s, p, b, c, e, j, v, k)
    ensures LocationAt(s, p).Some? ==>
              exists b, c, e, j, v, k :: LocationShape(s, p, b, c, e, j, v, k) && Greediest(s, p, j, k) &&
                LocationAt(s, p).value.end == k + 1 &&
                LocationAt(s, p).value.spans[0] == (b, c) && LocationAt(s, p).value.spans[1] == (v, k)
  {
    if LocationAt(s, p).Some? {
      LocationAtGreediest(s, p);
    }
    forall b', c', e', j', v', k' | LocationShape(s, p, b', c', e', j', v', k')
      ensures LocationAt(s, p).Some?
    {
      LocationShapeMatches(s, p, b', c', e', j', v', k');
    }
  }

  lemma LocationShapeMatches(s: string, p: nat, b: int, c: int, e: int, j: int, v: int, k: int)
    requires LocationShape(s, p, b, c, e, j, v, k)
    ensures LocationAt(s, p).Some?
  {
    LocationBodyWithin(s, p, b, c, e, j, v, k);
    LastProxyPassIsLast(s, e + 1, Span(s, e + 1, NotCloseBrace), j);
  }

  lemma LocationAtGreediest(s: string, p: nat)
    requires p <= |s| && LocationAt(s, p).Some?
    ensures GreediestMatch(s, p, LocationAt(s, p).value)
  {
    var (b, c, e) := LocationHead(s, p).value;
    assert LocationAt(s, p) == LocationBody(s, p, b, c, e);
    var j := LastProxyPass(s, e + 1, Span(s, e + 1, NotCloseBrace)).value;
    var (v, k) := ProxyPassAt(s, j).value;
    LocationPicked(s, p, b, c, e, j, v, k);
  }

  /** r is delimited by a greediest way the location pattern matches at p: its end and its two spans. */
  ghost predicate GreediestMatch(s: string, p: nat, r: Match) {
    exists b, c, e, j, v, k :: LocationShape(s, p, b, c, e, j, v, k) && Greediest(s, p, j, k) &&
      r.end == k + 1 && |r.spans| == 2 && r.spans[0] == (b, c) && r.spans[1] == (v, k)
  }

  /** The head the scanner finds and the tail it picks are the greediest shape, with the match's spans. */
  lemma LocationPicked(s: string, p: nat, b: nat, c: nat, e: nat, j: nat, v: nat, k: nat)
    requires p <= |s| && LocationHead(s, p).Some? && LocationHead(s, p).value == (b, c, e)
    requires LastProxyPass(s, e + 1, Span(s, e + 1, NotCloseBrace)).Some?
    requires LastProxyPass(s, e + 1, Span(s, e + 1, NotCloseBrace)).value == j
    requires ProxyPassAt(s, j).Some? && ProxyPassAt(s, j).value == (v, k)
    ensures LocationAt(s, p).Some? && GreediestMatch(s, p, LocationAt(s, p).value)
  {
    LocationShapeOf(s, p, b, c, e, j, v, k);
    LocationAtParts(s, p, b, c, e, j, v, k);
    LocationGreedy(s, p, e, j, k);
    assert LocationShape(s, p, b, c, e, j, v, k) && Greediest(s, p, j, k) &&
      LocationAt(s, p).value.end == k + 1 &&
      LocationAt(s, p).value.spans[0] == (b, c) && LocationAt(s, p).value.spans[1] == (v, k);
  }

  /** The head the scanner finds and the tail it picks form one way the pattern matches. */
  lemma LocationShapeOf(s: string, p: nat, b: nat, c: nat, e: nat, j: nat, v: nat, k: nat)
    requires p <= |s| && LocationHead(s, p).Some? && LocationHead(s, p).value == (b, c, e)
    requires LastProxyPass(s, e + 1, Span(s, e + 1, NotCloseBrace)).Some?
    requires LastProxyPass(s, e + 1, Span(s, e + 1, NotCloseBrace)).value == j
    requires ProxyPassAt(s, j).Some? && ProxyPassAt(s, j).value == (v, k)
    ensures LocationShape(s, p, b, c, e, j, v, k)
  {
    ProxyPassShape(s, j);
  }

  lemma LocationAtParts(s: string, p: nat, b: nat, c: nat, e: nat, j: nat, v: nat, k: nat)
    requires p <= |s| && LocationHead(s, p).Some? && LocationHead(s, p).value == (b, c, e)
    requires LastProxyPass(s, e + 1, Span(s, e + 1, NotCloseBrace)).Some?
    requires LastProxyPass(s, e + 1, Span(s, e + 1, NotCloseBrace)).value == j
    requires ProxyPassAt(s, j).Some? && ProxyPassAt(s, j).value == (v, k)
    ensures LocationAt(s, p).Some? && LocationAt(s, p).value.end == k + 1
    ensures LocationAt(s, p).value.spans[0] == (b, c) && LocationAt(s, p).value.spans[1] == (v, k)
  {
    var r := LocationBody(s, p, b, c, e);
    assert r.Some? && r.value.end == k + 1 && r.value.spans[0] == (b, c) && r.value.spans[1] == (v, k);
    assert LocationAt(s, p) == r;
  }

  /** The scanner's choice of body end j and target end k is the greediest one. */
  lemma LocationGreedy(s: string, p: nat, e: nat, j: nat, k: nat)
    requires p <= |s| && LocationHead(s, p).Some? && LocationHead(s, p).value.2 == e
    requires LastProxyPass(s, e + 1, Span(s, e + 1, NotCloseBrace)).Some?
    requires LastProxyPass(s, e + 1, Span(s, e + 1, NotCloseBrace)).value == j
    requires ProxyPassAt(s, j).Some? && ProxyPassAt(s, j).value.1 == k
    ensures Greediest(s, p, j, k)
  {
    TailsWithin(s, p, e);
    GreedyFromLast(s, p, e + 1, Span(s, e + 1, NotCloseBrace), j, k);
  }

  /** If every match's tail lies in [lo, m], the last tail there that the scanner finds is the greediest. */
  lemma GreedyFromLast(s: string, p: nat, lo: nat, m: nat, j: nat, k: nat)
    requires lo <= m <= |s| && LastProxyPass(s, lo, m).Some? && LastProxyPass(s, lo, m).value == j
    requires ProxyPassAt(s, j).Some? && ProxyPassAt(s, j).value.1 == k
    requires TailsIn(s, p, lo, m)
    ensures Greediest(s, p, j, k)
  {
    TailsNotLater(s, lo, m, j, k);
  }

  /** The tail of every match of the location pattern at p lies in [lo, m]. */
  ghost predicate TailsIn(s: string, p: nat, lo: int, m: int) {
    forall b', c', e', j', v', k' :: LocationShape(s, p, b', c', e', j', v', k') ==>
      lo <= j' <= m && ProxyShape(s, j', v', k')
  }

  /** The tail of every match at p lies between the '{' the scanner finds and the first '}' after it. */
  lemma TailsWithin(s: string, p: nat, e: nat)
    requires p <= |s| && LocationHead(s, p).Some? && LocationHead(s, p).value.2 == e
    ensures TailsIn(s, p, e + 1, Span(s, e + 1, NotCloseBrace))
  {
    forall b', c', e', j', v', k' | LocationShape(s, p, b', c', e', j', v', k')
      ensures e + 1 <= j' <= Span(s, e + 1, NotCloseBrace) && ProxyShape(s, j', v', k')
    {
      TailWithin(s, p, e, b', c', e', j', v', k');
    }
  }

  /** The tail of any match at p lies between the '{' the scanner finds and the first '}' after it. */
  lemma TailWithin(s: string, p: nat, e: nat, b: int, c: int, e': int, j: int, v: int, k: int)
    requires p <= |s| && LocationHead(s, p).Some? && LocationHead(s, p).value.2 == e
    requires LocationShape(s, p, b, c, e', j, v, k)
    ensures e + 1 <= j <= Span(s, e + 1, NotCloseBrace) && ProxyShape(s, j, v, k)
  {
    LocationBodyWithin(s, p, b, c, e', j, v, k);
  }

  /** Every tail in [lo, m] ends its body no later than LastProxyPass, and its target no later at the same place. */
  lemma TailsNotLater(s: string, lo: nat, m: nat, j: nat, k: nat)
    requires lo <= m <= |s| && LastProxyPass(s, lo, m).Some? && LastProxyPass(s, lo, m).value == j
    requires ProxyPassAt(s, j).Some? && ProxyPassAt(s, j).value.1 == k
    ensures forall j', v', k' :: lo <= j' <= m && ProxyShape(s, j', v', k') ==> j' < j || (j' == j && k' <= k)
  {
    forall j', v', k' | lo <= j' <= m && ProxyShape(s, j', v', k') ensures j' < j || (j' == j && k' <= k) {
      TailNotLater(s, lo, m, j, k, j', v', k');
    }
  }

  /** A tail in [lo, m] ends its body no later than LastProxyPass, and its target no later at the same place. */
  lemma TailNotLater(s: string, lo: nat, m: nat, j: nat, k: nat, j': int, v': int, k': int)
    requires lo <= j' <= m <= |s| && LastProxyPass(s, lo, m).Some? && LastProxyPass(s, lo, m).value == j
    requires ProxyPassAt(s, j).Some? && ProxyPassAt(s, j).value.1 == k
    requires ProxyShape(s, j', v', k')
    ensures j' < j || (j' == j && k' <= k)
  {
    ProxyShapeBound(s, j', v', k');
    LastProxyPassIsLast(s, lo, m, j');
  }

  /** The address, its ':' and the port digits form one run of non-space characters. */
  lemma AddressRun(s: string, b: int, c: int, t: int)
    requires 0 <= b < c < t <= |s| && AllIn(s, b, c, NonSpace) && s[c] == ':' && AllIn(s, c + 1, t, Digit)
    ensures AllIn(s, b, t, NonSpace)
  {
    forall q | b <= q < t ensures InClass(s[q], NonSpace) {
      if c < q {
        assert IsDigit(s[q]);
      }
    }
  }

  /** Any match's head is the one the scanner finds, and its body ends by the first '}'. */
  lemma LocationBodyWithin(s: string, p: nat, b: int, c: int, e: int, j: int, v: int, k: int)
    requires LocationShape(s, p, b, c, e, j, v, k)
    ensures LocationHead(s, p) == Some((b, c, e))
    ensures e + 1 <= j <= Span(s, e + 1, NotCloseBrace) && ProxyPassAt(s, j).Some?
  {
    assert InClass(s[b], PathChar);
    SpanUnique(s, p + 8, b, Space);
    assert !InClass(s[c], PathChar) by {
      if c < e {
        assert IsSpace(s[c]);
      }
    }
    SpanUnique(s, b, c, PathChar);
    SpanUnique(s, c, e, Space);
    ProxyShapeBound(s, j, v, k);
  }

  /**
   * A location block whose body has no `proxy_pass` before its first '}' is not
   * matched: e is the '{' that follows the path.
   */
  lemma LocationNeedsProxyPass(s: string, p: nat, e: nat)
    requires p <= |s| && LocationHead(s, p).Some? && LocationHead(s, p).value.2 == e
    requires forall j :: e < j < Span(s, e + 1, NotCloseBrace) ==> !LiteralAt(s, j, "proxy_pass")
    ensures LocationAt(s, p).None?
  {
    var m := Span(s, e + 1, NotCloseBrace);
    forall j | e + 1 <= j <= m ensures ProxyPassAt(s, j).None? {
    }
  }

  // ---------------------------------------------------------------------------
  // re.search, re.findall, re.split

  function MatchAt(pat: Pattern, s: string, p: nat): (r: Option<Match>)
    requires p <= |s|
    ensures r.Some? ==> r.value.start == p && p < r.value.end <= |s| && |r.value.spans| == GroupCount(pat) && Spanned(r.value)
  {
    match pat
    case ServerBoundary => BoundaryAt(s, p)
    case Scalar(name) => ScalarAt(name, s, p)
    case ListenSsl => ListenAt(s, p)
    case LocationProxy => LocationAt(s, p)
  }

  /**
   * Where pat matches at each start position 0..|s| of s. The engine tries the
   * start positions from left to right, so `re.search`, `re.findall` and
   * `re.split` below depend on the text only through this table.
   */
  function Matches(pat: Pattern, s: string): (t: seq<Option<Match>>)
    ensures |t| == |s| + 1 && Positioned(t) && Grouped(t, GroupCount(pat))
  {
    seq(|s| + 1, q requires 0 <= q <= |s| => MatchAt(pat, s, q))
  }

  /** Every entry of a table is a match that starts at its own position and ends within the text. */
  ghost predicate Positioned(t: seq<Option<Match>>) {
    forall q :: 0 <= q < |t| && t[q].Some? ==> t[q].value.start == q < t[q].value.end < |t|
  }

  /** Every match of a table has g groups, each inside the match. */
  ghost predicate Grouped(t: seq<Option<Match>>, g: nat) {
    forall q :: 0 <= q < |t| && t[q].Some? ==> |t[q].value.spans| == g && Spanned(t[q].value)
  }

  /** No match starts anywhere in [lo, hi). */
  ghost predicate NoMatchIn(t: seq<Option<Match>>, lo: int, hi: int) {
    forall q :: lo <= q < hi && 0 <= q < |t| ==> t[q].None?
  }

  /** `re.search(pat, s[from:])` in position terms: the leftmost match starting at or after from. */
  function Search(t: seq<Option<Match>>, from: nat): (r: Option<Match>)
    requires from < |t| && Positioned(t)
    ensures r.None? ==> NoMatchIn(t, from, |t|)
    ensures r.Some? ==> from <= r.value.start < |t| && t[r.value.start] == r
    ensures r.Some? ==> NoMatchIn(t, from, r.value.start)
    decreases |t| - from
  {
    match t[from]
    case Some(m) => Some(m)
    case None => if from == |t| - 1 then None else Search(t, from + 1)
  }

  /** Where the gap before match i of a scan starting at from begins. */
  function GapStart(ms: seq<Match>, from: nat, i: nat): nat
    requires i <= |ms|
  {
    if i == 0 then from else ms[i - 1].end
  }

  lemma GapStartCons(m: Match, rest: seq<Match>, from: nat, i: nat)
    requires 0 < i <= |rest| + 1
    ensures GapStart([m] + rest, from, i) == GapStart(rest, m.end, i - 1)
  {
    if i > 1 {
      assert ([m] + rest)[i - 1] == rest[i - 2];
    }
  }

  /** Match i of ms is an entry of the table and lies after the gap that precedes it. */
  ghost predicate InOrder(t: seq<Option<Match>>, ms: seq<Match>, from: nat, i: nat)
    requires i < |ms|
  {
    GapStart(ms, from, i) <= ms[i].start < ms[i].end < |t| && t[ms[i].start] == Some(ms[i])
  }

  /**
   * `re.findall` from position from: the leftmost match, then the leftmost match
   * starting at or after its end, and so on.
   */
  function FindAllFrom(t: seq<Option<Match>>, from: nat): (ms: seq<Match>)
    requires from < |t| && Positioned(t)
    ensures forall i :: 0 <= i < |ms| ==> InOrder(t, ms, from, i)
    decreases |t| - from
  {
    match Search(t, from)
    case None => []
    case Some(m) =>
      var rest := FindAllFrom(t, m.end);
      var ms := [m] + rest;
      forall i | 0 < i < |ms| ensures InOrder(t, ms, from, i) {
        GapStartCons(m, rest, from, i);
        assert InOrder(t, rest, m.end, i - 1);
      }
      ms
  }

  /** m is a match at or after lo, and no match starts between lo and m. */
  ghost predicate LeftmostFrom(t: seq<Option<Match>>, lo: nat, m: Match) {
    lo <= m.start < |t| && t[m.start] == Some(m) && NoMatchIn(t, lo, m.start)
  }

  /** Element i of ms is the leftmost match from the end of element i - 1 (from, for the first). */
  ghost predicate ScanStep(t: seq<Option<Match>>, from: nat, ms: seq<Match>, i: nat)
    requires i < |ms|
  {
    LeftmostFrom(t, GapStart(ms, from, i), ms[i])
  }

  /**
   * ms is what a left-to-right scan for non-overlapping matches finds from position
   * from: each element is the leftmost match from the end of the one before, and no
   * match starts after the last one.
   */
  ghost predicate IsScan(t: seq<Option<Match>>, from: nat, ms: seq<Match>) {
    (forall i :: 0 <= i < |ms| ==> ScanStep(t, from, ms, i)) &&
    NoMatchIn(t, GapStart(ms, from, |ms|), |t|)
  }

  lemma ScanCons(t: seq<Option<Match>>, from: nat, m: Match, rest: seq<Match>)
    requires LeftmostFrom(t, from, m) && IsScan(t, m.end, rest)
    ensures IsScan(t, from, [m] + rest)
  {
    var ms := [m] + rest;
    forall i | 0 < i < |ms| ensures ScanStep(t, from, ms, i) {
      GapStartCons(m, rest, from, i);
      assert ScanStep(t, m.end, rest, i - 1);
      assert ms[i] == rest[i - 1];
    }
    GapStartCons(m, rest, from, |ms|);
    assert ScanStep(t, from, ms, 0);
  }

  /** findall performs exactly that scan. */
  lemma {:induction false} FindAllIsScan(t: seq<Option<Match>>, from: nat)
    requires from < |t| && Positioned(t)
    ensures IsScan(t, from, FindAllFrom(t, from))
    decreases |t| - from
  {
    match Search(t, from)
    case None =>
    case Some(m) =>
      FindAllIsScan(t, m.end);
      ScanCons(t, from, m, FindAllFrom(t, m.end));
  }

  /** ... and it is the only sequence of matches that such a scan can find. */
  lemma {:induction false} ScanIsFindAll(t: seq<Option<Match>>, from: nat, ms: seq<Match>)
    requires from < |t| && Positioned(t) && IsScan(t, from, ms)
    ensures FindAllFrom(t, from) == ms
    decreases |t| - from
  {
    if ms == [] {
      assert Search(t, from).None?;
    } else {
      var m := ms[0];
      assert ScanStep(t, from, ms, 0);
      SearchIsLeftmost(t, from, m);
      var rest := ms[1..];
      assert ms == [m] + rest;
      assert IsScan(t, m.end, rest) by {
        forall i | 0 <= i < |rest| ensures ScanStep(t, m.end, rest, i) {
          GapStartCons(m, rest, from, i + 1);
          assert ScanStep(t, from, ms, i + 1);
          assert rest[i] == ms[i + 1];
        }
        GapStartCons(m, rest, from, |ms|);
      }
      ScanIsFindAll(t, m.end, rest);
    }
  }

  /** The leftmost match from a position is the one Search returns; it follows from Search's contract. */
  lemma {:induction false} SearchIsLeftmost(t: seq<Option<Match>>, from: nat, m: Match)
    requires from < |t| && Positioned(t) && LeftmostFrom(t, from, m)
    ensures Search(t, from) == Some(m)
  {
  }

  /** Where piece i of a split ends: where match i starts, or at the end of the text. */
  function PieceEnd(s: string, ms: seq<Match>, i: nat): nat
    requires i <= |ms|
  {
    if i < |ms| then ms[i].start else |s|
  }

  /** `re.split(ServerBoundary, s[from:])`: the texts before, between and after the boundaries. */
  function SplitFrom(s: string, from: nat): (pieces: seq<string>)
    requires from <= |s|
    ensures |pieces| > 0
    decreases |s| - from
  {
    match Search(Matches(ServerBoundary, s), from)
    case None => [s[from..]]
    case Some(m) => [s[from..m.start]] + SplitFrom(s, m.end)
  }

  /** Piece i of a split is the text between boundary i - 1 (or from) and boundary i (or the end). */
  predicate IsPiece(s: string, ms: seq<Match>, from: nat, pieces: seq<string>, i: nat)
    requires i < |pieces| && |pieces| == |ms| + 1
  {
    GapStart(ms, from, i) <= PieceEnd(s, ms, i) <= |s| &&
    pieces[i] == s[GapStart(ms, from, i)..PieceEnd(s, ms, i)]
  }

  /** There is one piece more than there are boundaries, and piece i is the gap before boundary i. */
  lemma {:induction false} SplitFromPieces(s: string, from: nat)
    requires from <= |s|
    ensures |SplitFrom(s, from)| == |FindAllFrom(Matches(ServerBoundary, s), from)| + 1
    ensures forall i :: 0 <= i < |SplitFrom(s, from)| ==>
              IsPiece(s, FindAllFrom(Matches(ServerBoundary, s), from), from, SplitFrom(s, from), i)
    decreases |s| - from
  {
    var t := Matches(ServerBoundary, s);
    var ms := FindAllFrom(t, from);
    var pieces := SplitFrom(s, from);
    match Search(t, from)
    case None =>
      assert IsPiece(s, ms, from, pieces, 0);
    case Some(m) =>
      SplitFromPieces(s, m.end);
      var rest := FindAllFrom(t, m.end);
      var tail := SplitFrom(s, m.end);
      assert ms == [m] + rest;
      assert pieces == [s[from..m.start]] + tail;
      assert from <= m.start <= |s| && |tail| == |rest| + 1;
      assert IsPiece(s, ms, from, pieces, 0);
      forall i | 0 < i < |pieces| ensures IsPiece(s, ms, from, pieces, i) {
        assert IsPiece(s, rest, m.end, tail, i - 1);
        PieceShift(s, from, m, rest, tail, i);
      }
  }

  /** Prefixing one boundary and the piece before it shifts every later piece by one. */
  lemma PieceShift(s: string, from: nat, m: Match, rest: seq<Match>, tail: seq<string>, i: nat)
    requires from <= m.start <= |s| && |tail| == |rest| + 1 && 0 < i <= |tail|
    requires IsPiece(s, rest, m.end, tail, i - 1)
    ensures IsPiece(s, [m] + rest, from, [s[from..m.start]] + tail, i)
  {
    GapStartCons(m, rest, from, i);
    assert ([s[from..m.start]] + tail)[i] == tail[i - 1];
    assert PieceEnd(s, [m] + rest, i) == PieceEnd(s, rest, i - 1);
  }
}
