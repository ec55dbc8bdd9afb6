# nginx_to_npm: the configuration extractor and the request transformer

The repository is a one-file migration script. It reads an nginx
configuration and creates one proxy host per `server` block in Nginx Proxy
Manager. This project models the two functions that hold its logic, with the
same branches, edge cases and failure conditions, except for the limits
listed under "Left out" below.

- **`parse_nginx_config`** is modelled in `extractor.dfy`. The text is split at
  every `\n\s*server\s*\{` boundary, and the piece before the first boundary is
  dropped. Then, for each block in order, the parse:
  - takes the first match of the `server_name`, `ssl_certificate` and
    `ssl_certificate_key` patterns and of `listen <addr>:<digits> ssl;`;
  - collects every `location <path> { ... proxy_pass <target>; }` match, in
    order.

  A block that misses one of the four directives makes the script raise on
  `None.group`. The model returns `Failure(MissingDirective(block, directive))`
  for the whole call: the first failing block and its first missing directive.
- **`convert_to_npm_config`** is modelled in `transformer.dfy`.
  - The forwarding target is the first location's `proxy_pass`. Every
    `http://` is removed from it, then every `https://`, and the result is
    split at `:`.
  - The host is segment 0. The port is `int()` of segment 1 when there is one.
    Otherwise it is 443 for a site listening on 443, and 80 for any other.
  - The scheme is `http` exactly when the port is 80.
  - The advanced configuration is built by a loop that appends one `location`
    fragment per location, and is then stripped.
  - Every other field of the request is a constant.
  - The conversion fails on an empty location list (the `IndexError` of
    `locations[0]`). It also fails on the first location whose port segment is
    not an integer (the `ValueError` of `int()`). Each location's port is parsed
    although only the first one is used.

The regular expressions are not modelled by a general engine. Instead:
- `patterns.dfy` has one scanner per fixed pattern. Each scanner is proved
  equal to a declarative "shape" predicate: the pattern read as a grammar,
  plus the choice Python's backtracking makes where several matches are
  possible.
- That choice matters inside a location body. `[^\}]*` is greedy, so the body
  backs off from the first `}` to the LAST place where `proxy_pass\s+\S+;`
  matches.
- `\S+;` then runs to the last `;` of that token.
- `re.search`, `re.findall` and `re.split` are modelled over the table of
  matches at each start position. `findall` is proved to be exactly the
  leftmost, non-overlapping left-to-right scan.

`text.dfy` models the Python string operations used:
- `str.isspace` for `\s`;
- `str.strip()`;
- `str.replace(pat, "")`;
- `str.split(":")`, proved to be the unique separator-free cut;
- base-10 `int()`: an optional sign and digits with single underscores between
  them, with the round trip `int(str(n)) == n` proved. Around the numeral,
  `int()` skips a narrower set of whitespace than `str.strip()`: the characters
  U+001C to U+001F count as whitespace for `str.isspace()`, but `int()` rejects
  them.

Where a reader might expect otherwise, the model follows the code:
- A missing directive aborts the whole parse. It is not a per-block failure.
- A block with no location is still parsed. The conversion is what fails on it.
- `replace` removes every occurrence of `http://` and `https://`, not only a
  leading one.
- The port is segment 1 of the split, up to the next `:` if there is one.
- The location body is matched greedily: it ends at the last `proxy_pass`
  before the first `}`, not at the first one.
- The advanced-configuration fragments repeat each location's target verbatim,
  with no scheme removed.

## Model

| member | source | states |
|---|---|---|
| Text.StripPadded | migra_nginx.py:76 | `strip()` removes exactly a whitespace margin around text that starts and ends with a non-space character |
| Text.RemoveAllAbsent | migra_nginx.py:50 | `replace(pat, "")` leaves text in which `pat` never occurs unchanged |
| Text.RemoveAllSkip | migra_nginx.py:50 | `replace(pat, "")` removes every occurrence, not only a leading one: text before an occurrence is kept, the occurrence is dropped, and the scan goes on after it |
| Text.SplitOn | migra_nginx.py:50 | the segments of `split(c)` contain no `c` and rejoin with `c` to the original text |
| Text.SplitOnUnique | migra_nginx.py:50 | `split(c)` is the only cut of the text into `c`-free segments joined by `c` |
| Text.SplitOnCons | migra_nginx.py:50-51 | the first separator after a separator-free head ends segment 0 |
| Text.ParseIntDigits | migra_nginx.py:40 | `int()` of a non-empty ASCII digit run is its decimal value |
| Text.ParseIntDecimal | migra_nginx.py:52 | `int()` inverts the decimal numeral of every integer, negative ones included |
| Text.ParseIntPadded | migra_nginx.py:52 | `int()` of a digit run with a margin of the whitespace it skips is the run's value |
| Text.ParseIntSkipsLess | migra_nginx.py:52 | a space or tab around digits is skipped by `int()`, but a leading U+001C, which `strip()` removes, makes `int()` fail |
| Patterns.BoundaryAtIff | migra_nginx.py:34 | the boundary scanner matches at p exactly when a newline, whitespace, `server`, whitespace and `{` follow, and then ends after the `{` |
| Patterns.ScalarAtIff | migra_nginx.py:37-39 | the directive scanner matches exactly when the name, whitespace, a token with no whitespace or `;`, then `;` follow, and captures that token |
| Patterns.ListenAtIff | migra_nginx.py:40 | the listen scanner matches exactly when `listen`, whitespace, an address, `:`, digits, whitespace and `ssl;` follow, and captures the digits |
| Patterns.ListenShapeUnique | migra_nginx.py:40 | every way the listen pattern can match at p gives the same match as the scanner |
| Patterns.ProxyPassAtIff | migra_nginx.py:42 | the `proxy_pass\s+(\S+);` tail matches exactly when its shape exists, and its target ends at the last admissible `;` |
| Patterns.LastProxyPassIsLast | migra_nginx.py:42 | no position in the body range where the tail matches lies after the one chosen |
| Patterns.LocationAtIff | migra_nginx.py:42 | the location scanner matches exactly when the pattern's shape exists, and returns the greediest one, capturing its path and target |
| Patterns.LocationNeedsProxyPass | migra_nginx.py:42 | a location whose body has no `proxy_pass` before its first `}` is not matched |
| Patterns.Search | migra_nginx.py:37-40 | `re.search` returns the leftmost match, with no match before it; None means no match anywhere |
| Patterns.FindAllFrom | migra_nginx.py:42 | every match `re.findall` returns is a real match and starts after the previous one ends |
| Patterns.FindAllIsScan | migra_nginx.py:42 | `re.findall` yields, in order, the leftmost match from the end of the previous one, and nothing after the last |
| Patterns.ScanIsFindAll | migra_nginx.py:42 | any sequence of matches with that scan property is what `re.findall` returns |
| Patterns.SearchIsLeftmost | migra_nginx.py:37-40 | the leftmost match from a position is the one `re.search` finds |
| Patterns.SplitFromPieces | migra_nginx.py:34 | `re.split` gives one piece more than there are boundaries, and piece i is the text between boundary i - 1 and boundary i |
| Extractor.Capture | migra_nginx.py:37-40 | a directive lookup fails exactly when its pattern matches at no position of the block |
| Extractor.BlocksFollowBoundaries | migra_nginx.py:34-35 | after dropping the first piece there is one block per boundary, and block i runs from the end of boundary i to the next boundary or the end |
| Extractor.NoNewlineNoBlocks | migra_nginx.py:34-35 | text without a newline, so also a lone `server {` at offset 0, yields no block |
| Extractor.NoBoundaryNoBlocks | migra_nginx.py:34-35 | text with no boundary yields an empty list |
| Extractor.Locations | migra_nginx.py:42-43 | there is one location rule per `findall` match |
| Extractor.ParseBlock | migra_nginx.py:36-45 | a block parses exactly when all four lookups succeed, and a failure names the first missing directive in lookup order |
| Extractor.ParseBlockRecord | migra_nginx.py:36-45 | in a parsed record each scalar field is the token of the first `<name> <token>;` in the block, the listen port is `int()` of the digits of the first `listen <addr>:<digits> ssl;`, and location i is the path and target of the greediest shape of the i-th match of the left-to-right location scan |
| Extractor.ScalarCaptureIsFirst | migra_nginx.py:37-39 | a scalar field is the token of the first place where `<name> <token>;` occurs in the block |
| Extractor.ListenCaptureIsFirst | migra_nginx.py:40 | the listen port digits come from the first `listen <addr>:<digits> ssl;` in the block |
| Extractor.ListenPortIsInt | migra_nginx.py:40 | `int()` of the captured digits succeeds and equals the record's listen port |
| Extractor.CertificateSkipsKeyLine | migra_nginx.py:38-39 | `ssl_certificate` never matches where `ssl_certificate_key` starts |
| Extractor.TwoWordServerNameRejected | migra_nginx.py:37 | `server_name a b;` is not a match of the server-name pattern |
| Extractor.LocationRuleIsScanned | migra_nginx.py:42-43 | rule i comes from the leftmost location match after rule i - 1, and its path and target are what its greediest shape delimits |
| Extractor.NoLocationMatchNoRules | migra_nginx.py:42-43 | a block with no location match yields an empty location list |
| Extractor.ParseNginxConfig | migra_nginx.py:32-46 | success exactly when every block parses, giving one record per block in order; otherwise the failure names the first failing block and its missing directive |
| Extractor.ParseBlocks | migra_nginx.py:33-46 | the loop keeps one record per visited block, in order, and stops at the first block whose parse fails |
| Transformer.ForwardHost | migra_nginx.py:50-51 | the forward host never contains `:` |
| Transformer.StripSchemesPlain | migra_nginx.py:50 | a target with no scheme text is left unchanged |
| Transformer.StripSchemesHttp | migra_nginx.py:50 | a leading `http://` is removed |
| Transformer.StripSchemesInside | migra_nginx.py:50 | an `http://` in the middle of a target is removed too, and the text on both sides is kept |
| Transformer.StripSchemesInsideExample | migra_nginx.py:50 | the target `ahttp://b` becomes `ab`, where a prefix strip would leave it unchanged |
| Transformer.StripSchemesHttps | migra_nginx.py:50 | a leading `https://` survives the first replace and is removed by the second |
| Transformer.PortDefault | migra_nginx.py:50-52 | without a `:` the host is the whole de-schemed target, and the port is 443 for a site on 443, else 80 |
| Transformer.PortExplicit | migra_nginx.py:50-52 | with a `:` the host is the text before it, and the port is `int()` of the text up to the next `:` |
| Transformer.NoSchemeAcrossPort | migra_nginx.py:50 | no scheme text can occur across or after the `:` that opens a numeric port |
| Transformer.DefaultPortTarget | migra_nginx.py:50-52 | `proxy_pass http://host;` or `https://host;` forwards to host on the default port |
| Transformer.ExplicitPortTarget | migra_nginx.py:50-52 | `proxy_pass http://host:n;` or `https://host:n;` forwards to host on port n, whatever the listen port |
| Transformer.ForwardingExamples | migra_nginx.py:50-68 | `http://backend` on a 443 site goes to 443 over https, `:8080` to 8080 over https, `:80` to 80 over http |
| Transformer.ConcatPiece | migra_nginx.py:56-64 | location i contributes one fragment, with its path and verbatim target, after those of the earlier locations and before the later ones |
| Transformer.ConcatAppend | migra_nginx.py:56-64 | the accumulated text of two lists of locations is the two texts, in order |
| Transformer.ConcatFramed | migra_nginx.py:55-64 | the accumulated text of a non-empty list is the location bodies joined by margins, inside one margin on each side |
| Transformer.AdvancedConfigJoined | migra_nginx.py:55-76 | the stripped advanced configuration is the location bodies in order, joined by their margins |
| Transformer.ConvertToNpmConfig | migra_nginx.py:49-81 | failure on no location or on the first bad port segment; otherwise the request holds `[server_name]`, the first target's host and port, `http` exactly on port 80, the stripped fragment text and the fixed constants |

## Left out

- `get_access_token` and `create_proxy_host`, lines 11-29: HTTP calls through the `requests` library.
- `main`, lines 84-96: the file read, the print loop and the propagation of errors to the process.
- The `__main__` handling of `sys.argv` and the exit status, lines 99-105.
- The credential and URL constants, lines 6-8: only the HTTP calls use them.
- A general regular-expression engine. Only the fixed patterns of the script are modelled, as scanners. The three scalar directives share one scanner, parametrised by the directive name.
- Unicode digits: `\d` and `int()` accept every Unicode decimal digit; the model's `Text.IsDigit` accepts ASCII digits only.
- The key-by-key filling of each block's dictionary: the model builds the record once all four lookups have succeeded. A dictionary left half-filled is never kept, because the script raises instead.
- The per-location host (line 58) and port value (line 59): the script never uses them, so only the possibility that this `int()` raises is modelled.
- Text.ParseInt: does not model CPython's limit on the length of a decimal string given to `int()` (4300 digits by default since 3.11 and in the 3.7.14, 3.8.14, 3.9.14 and 3.10.7 security releases, adjustable by environment and at run time), above which `int()` raises `ValueError`. The model parses digit strings of any length, so Text.ParseIntDigits, Text.ParseIntDecimal, Extractor.ListenPortIsInt, Extractor.ParseBlock, Extractor.ParseNginxConfig and Transformer.ConvertToNpmConfig state success where such an interpreter would raise on a listen port or a target port of more than 4300 digits.
