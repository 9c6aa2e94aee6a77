/**
 * The request-rewriting rules of the proxy: the request-line check, the split of a
 * URI into host, path and port, the client-header filter, the request sent to the
 * server, and the relay of the response into the client and the cache.
 *
 * C strings are `string`s without their terminating NUL; a `sscanf` conversion that
 * does not match leaves its buffer unassigned, which the model writes as "".
 */
module ProxyRequest {
  import opened Opt
  import ProxyCache

  // ---------------------------------------------------------------------------
  // Scanning primitives of the C library

  /** isspace in the C locale. */
  predicate IsSpace(c: char)
  {
    c == ' ' || c == '\t' || c == '\n' || c == '\U{000B}' || c == '\U{000C}' || c == '\r'
  }

  /** The end of the run of characters other than x from i (a %[^x] conversion, strchr). */
  function RunEnd(s: string, i: nat, x: char): (e: nat)
    requires i <= |s|
    ensures i <= e <= |s|
    decreases |s| - i
  {
    if i == |s| || s[i] == x then i else RunEnd(s, i + 1, x)
  }

  lemma {:induction false} RunEndSpec(s: string, i: nat, x: char)
    requires i <= |s|
    ensures forall k :: i <= k < RunEnd(s, i, x) ==> s[k] != x
    ensures RunEnd(s, i, x) < |s| ==> s[RunEnd(s, i, x)] == x
    decreases |s| - i
  {
    if i < |s| && s[i] != x {
      RunEndSpec(s, i + 1, x);
    }
  }

  lemma {:induction false} RunEndAt(s: string, i: nat, x: char, e: nat)
    requires i <= e <= |s|
    requires forall k :: i <= k < e ==> s[k] != x
    requires e == |s| || s[e] == x
    ensures RunEnd(s, i, x) == e
    decreases e - i
  {
    if i < e {
      RunEndAt(s, i + 1, x, e);
    }
  }

  /** The end of the run from i of characters that are white space exactly when `space`. */
  function SpanEnd(s: string, i: nat, space: bool): (e: nat)
    requires i <= |s|
    ensures i <= e <= |s|
    decreases |s| - i
  {
    if i == |s| || IsSpace(s[i]) != space then i else SpanEnd(s, i + 1, space)
  }

  lemma {:induction false} SpanEndSpec(s: string, i: nat, space: bool)
    requires i <= |s|
    ensures forall k :: i <= k < SpanEnd(s, i, space) ==> IsSpace(s[k]) == space
    ensures SpanEnd(s, i, space) < |s| ==> IsSpace(s[SpanEnd(s, i, space)]) != space
    decreases |s| - i
  {
    if i < |s| && IsSpace(s[i]) == space {
      SpanEndSpec(s, i + 1, space);
    }
  }

  lemma {:induction false} SpanEndAt(s: string, i: nat, space: bool, e: nat)
    requires i <= e <= |s|
    requires forall k :: i <= k < e ==> IsSpace(s[k]) == space
    requires e == |s| || IsSpace(s[e]) != space
    ensures SpanEnd(s, i, space) == e
    decreases e - i
  {
    if i < e {
      SpanEndAt(s, i + 1, space, e);
    }
  }

  /** Where a %s conversion from i starts (after white space) and ends. */
  function WordStart(s: string, i: nat): (a: nat)
    requires i <= |s|
    ensures i <= a <= |s|
  {
    SpanEnd(s, i, true)
  }

  function WordStop(s: string, i: nat): (e: nat)
    requires i <= |s|
    ensures WordStart(s, i) <= e <= |s|
  {
    SpanEnd(s, WordStart(s, i), false)
  }

  /** What a %s conversion from i stores: the next white-space-delimited word, or "" at the end. */
  function Conv(s: string, i: nat): string
    requires i <= |s|
  {
    s[WordStart(s, i)..WordStop(s, i)]
  }

  /** A %s conversion at a word w that reaches the end of s or white space. */
  lemma ConvAt(s: string, i: nat, w: string)
    requires i + |w| <= |s| && s[i..i + |w|] == w
    requires w != [] && !IsSpace(w[0])
    requires forall k :: 0 <= k < |w| ==> !IsSpace(w[k])
    requires i + |w| == |s| || IsSpace(s[i + |w|])
    ensures WordStart(s, i) == i && WordStop(s, i) == i + |w| && Conv(s, i) == w
  {
    SpanEndAt(s, i, true, i);
    assert forall k :: i <= k < i + |w| ==> s[k] == w[k - i];
    SpanEndAt(s, i, false, i + |w|);
  }

  /** s[i..] begins with p. */
  predicate ContainsAt(s: string, i: nat, p: string)
  {
    i + |p| <= |s| && s[i..i + |p|] == p
  }

  /** strstr(s, p) != NULL, scanning from i. */
  predicate HasSub(s: string, i: nat, p: string)
    requires i <= |s|
    decreases |s| - i
  {
    ContainsAt(s, i, p) || (i < |s| && HasSub(s, i + 1, p))
  }

  lemma {:induction false} HasSubAt(s: string, i: nat, p: string, k: nat)
    requires i <= k <= |s| && ContainsAt(s, k, p)
    ensures HasSub(s, i, p)
    decreases k - i
  {
    if i < k {
      HasSubAt(s, i + 1, p, k);
    }
  }

  // ---------------------------------------------------------------------------
  // parse_uri

  /** Where the request goes: host name, path and port, as parse_uri leaves them. */
  datatype Target = Target(host: string, path: string, port: string)

  /** The tail of parse_uri: the port defaults to "80"; a ':' in the host cuts it off, the port follows. */
  function SplitPort(host: string, path: string): Target
  {
    var k := RunEnd(host, 0, ':');
    if k < |host| then Target(host[..k], path, host[k + 1..]) else Target(host, path, "80")
  }

  /**
   * parse_uri.  With "://" anywhere in the uri the format is "%[^:]://%[^/]%s", the
   * scheme running to the first ':'; without it, "%[^/]%s".  A conversion that does not
   * match leaves the host and the path "".
   */
  function ParseUri(uri: string): Target
  {
    if !HasSub(uri, 0, "://") then
      var e := RunEnd(uri, 0, '/');
      if e == 0 then SplitPort("", "") else SplitPort(uri[..e], Conv(uri, e))
    else
      var c := RunEnd(uri, 0, ':');
      if c == 0 || !ContainsAt(uri, c, "://") then SplitPort("", "")
      else
        var e := RunEnd(uri, c + 3, '/');
        if e == c + 3 then SplitPort("", "") else SplitPort(uri[c + 3..e], Conv(uri, e))
  }

  lemma SplitPortShape(host: string, path: string)
    requires '/' !in host
    ensures ':' !in SplitPort(host, path).host && '/' !in SplitPort(host, path).host
    ensures SplitPort(host, path).path == path
    ensures ':' !in host ==> SplitPort(host, path) == Target(host, path, "80")
  {
    RunEndSpec(host, 0, ':');
    var k := RunEnd(host, 0, ':');
    if k < |host| {
      assert forall c :: c in host[..k] ==> c != ':' && c != '/';
    } else {
      assert ':' !in host;
    }
  }

  /** The path a %s conversion takes right after a %[^/] run is "" or begins with '/'. */
  lemma ConvAfterRun(uri: string, i: nat)
    requires i <= |uri| && RunEnd(uri, i, '/') < |uri|
    ensures Conv(uri, RunEnd(uri, i, '/')) != [] && Conv(uri, RunEnd(uri, i, '/'))[0] == '/'
  {
    var e := RunEnd(uri, i, '/');
    RunEndSpec(uri, i, '/');
    SpanEndAt(uri, e, true, e);
    SpanEndSpec(uri, e, false);
    assert !IsSpace(uri[e]);
    assert WordStop(uri, e) > e;
  }

  /**
   * What parse_uri leaves: a host without '/' or ':', a path that is "" or begins
   * with '/', and the port "80" unless the host named one.
   */
  lemma ParseUriShape(uri: string)
    ensures ':' !in ParseUri(uri).host && '/' !in ParseUri(uri).host
    ensures ParseUri(uri).path == [] || ParseUri(uri).path[0] == '/'
  {
    if !HasSub(uri, 0, "://") {
      var e := RunEnd(uri, 0, '/');
      RunEndSpec(uri, 0, '/');
      if e == 0 {
        SplitPortShape("", "");
      } else {
        assert forall c :: c in uri[..e] ==> c != '/';
        SplitPortShape(uri[..e], Conv(uri, e));
        if e < |uri| {
          ConvAfterRun(uri, 0);
        } else {
          assert Conv(uri, e) == [];
        }
      }
    } else {
      var c := RunEnd(uri, 0, ':');
      if c == 0 || !ContainsAt(uri, c, "://") {
        SplitPortShape("", "");
      } else {
        var e := RunEnd(uri, c + 3, '/');
        RunEndSpec(uri, c + 3, '/');
        if e == c + 3 {
          SplitPortShape("", "");
        } else {
          var h := uri[c + 3..e];
          assert forall k :: 0 <= k < |h| ==> h[k] == uri[c + 3 + k];
          SplitPortShape(uri[c + 3..e], Conv(uri, e));
          if e < |uri| {
            ConvAfterRun(uri, c + 3);
          } else {
            assert Conv(uri, e) == [];
          }
        }
      }
    }
  }

  /** A path as the proxy forwards it: "" or a word beginning with '/'. */
  predicate IsPath(path: string)
  {
    (path == [] || path[0] == '/') && forall k :: 0 <= k < |path| ==> !IsSpace(path[k])
  }

  /** The %s conversion that takes the path, at position e of uri == prefix + path. */
  lemma ConvPath(uri: string, e: nat, path: string)
    requires e + |path| == |uri| && uri[e..] == path && IsPath(path)
    ensures Conv(uri, e) == path
  {
    if path == [] {
      SpanEndAt(uri, e, true, e);
      SpanEndAt(uri, e, false, e);
    } else {
      ConvAt(uri, e, path);
    }
  }

  /** An absolute URI: the scheme and "://" are dropped and the host part runs to the path. */
  lemma ParseUriAbsolute(scheme: string, hp: string, path: string)
    requires scheme != [] && ':' !in scheme
    requires hp != [] && '/' !in hp
    requires IsPath(path)
    ensures ParseUri(scheme + "://" + hp + path) == SplitPort(hp, path)
  {
    var u := scheme + "://" + hp + path;
    var c := |scheme|;
    var e := c + 3 + |hp|;
    assert u[c..c + 3] == "://";
    HasSubAt(u, 0, "://", c);
    assert forall k :: 0 <= k < c ==> u[k] == scheme[k];
    RunEndAt(u, 0, ':', c);
    assert u[c + 3..e] == hp;
    assert forall k :: c + 3 <= k < e ==> u[k] == hp[k - c - 3];
    RunEndAt(u, c + 3, '/', e);
    assert u[e..] == path;
    ConvPath(u, e, path);
  }

  /** A host part with a port: the host is cut at the ':' and the port follows. */
  lemma SplitPortWithPort(host: string, port: string, path: string)
    requires ':' !in host
    ensures SplitPort(host + ":" + port, path) == Target(host, path, port)
  {
    var hp := host + ":" + port;
    assert forall k :: 0 <= k < |host| ==> hp[k] == host[k];
    RunEndAt(hp, 0, ':', |host|);
    assert hp[..|host|] == host && hp[|host| + 1..] == port;
  }

  /** An absolute URI with an explicit port: scheme://host:port/path splits back into its parts. */
  lemma ParseUriWithPort(scheme: string, host: string, port: string, path: string)
    requires scheme != [] && ':' !in scheme
    requires host != [] && ':' !in host && '/' !in host && '/' !in port
    requires IsPath(path)
    ensures ParseUri(scheme + "://" + host + ":" + port + path) == Target(host, path, port)
  {
    var hp := host + ":" + port;
    assert scheme + "://" + host + ":" + port + path == scheme + "://" + hp + path;
    ParseUriAbsolute(scheme, hp, path);
    SplitPortWithPort(host, port, path);
  }

  /** Without a port the default "80" is used. */
  lemma ParseUriDefaultPort(scheme: string, host: string, path: string)
    requires scheme != [] && ':' !in scheme
    requires host != [] && ':' !in host && '/' !in host
    requires IsPath(path)
    ensures ParseUri(scheme + "://" + host + path) == Target(host, path, "80")
  {
    ParseUriAbsolute(scheme, host, path);
    SplitPortShape(host, path);
  }

  /** Without "://" the host runs to the first '/'. */
  lemma ParseUriNoScheme(host: string, path: string)
    requires host != [] && ':' !in host && '/' !in host
    requires IsPath(path) && !HasSub(host + path, 0, "://")
    ensures ParseUri(host + path) == Target(host, path, "80")
  {
    var u := host + path;
    assert forall k :: 0 <= k < |host| ==> u[k] == host[k];
    RunEndAt(u, 0, '/', |host|);
    assert u[..|host|] == host && u[|host|..] == path;
    ConvPath(u, |host|, path);
    SplitPortShape(host, path);
  }

  // ---------------------------------------------------------------------------
  // The request-line check of handle_request

  /** tolower on ASCII letters. */
  function Lower(c: char): char
  {
    if 'A' <= c <= 'Z' then (c as int + 32) as char else c
  }

  /** strcasecmp(m, "GET") == 0. */
  predicate IsGet(m: string)
  {
    |m| == 3 && Lower(m[0]) == 'g' && Lower(m[1]) == 'e' && Lower(m[2]) == 't'
  }

  /** strstr(line, "/") != NULL. */
  predicate HasSlash(line: string)
  {
    RunEnd(line, 0, '/') < |line|
  }

  /**
   * handle_request's check: a line without '/' is refused; then "%s %s %s" takes the
   * method, the uri and the version, and a method other than GET, in any case, is
   * refused.  The result is the uri handed to parse_uri; None is the -1 return.
   */
  function CheckRequestLine(line: string): Option<string>
  {
    if !HasSlash(line) || |line| < 1 then None
    else if !IsGet(Conv(line, 0)) then None
    else Some(Conv(line, WordStop(line, 0)))
  }

  lemma RunEndBefore(s: string, i: nat, x: char, k: nat)
    requires i <= k < |s| && s[k] == x
    ensures RunEnd(s, i, x) <= k
  {
    RunEndSpec(s, i, x);
  }

  lemma HasSlashSpec(line: string)
    ensures HasSlash(line) <==> '/' in line
  {
    RunEndSpec(line, 0, '/');
    if '/' in line {
      var k :| 0 <= k < |line| && line[k] == '/';
      RunEndBefore(line, 0, '/', k);
    }
  }

  /** A %s conversion from i that meets a non-space character at p or before stores a word. */
  lemma ConvNonEmpty(s: string, i: nat, p: nat)
    requires i <= p < |s| && !IsSpace(s[p])
    ensures WordStart(s, i) <= p && Conv(s, i) != []
    ensures forall k :: 0 <= k < |Conv(s, i)| ==> !IsSpace(Conv(s, i)[k])
  {
    SpanEndSpec(s, i, true);
    var a := WordStart(s, i);
    SpanEndSpec(s, a, false);
  }

  /**
   * The check accepts exactly the lines that hold a '/' and whose first word is GET in
   * any case, and it then yields the second word, which is never empty.
   */
  lemma CheckRequestLineSpec(line: string)
    ensures CheckRequestLine(line).Some? <==> '/' in line && IsGet(Conv(line, 0))
    ensures CheckRequestLine(line).Some? ==>
              CheckRequestLine(line).value == Conv(line, WordStop(line, 0)) &&
              CheckRequestLine(line).value != [] &&
              forall k :: 0 <= k < |CheckRequestLine(line).value| ==> !IsSpace(CheckRequestLine(line).value[k])
  {
    HasSlashSpec(line);
    if '/' in line && IsGet(Conv(line, 0)) {
      var p := RunEnd(line, 0, '/');
      RunEndSpec(line, 0, '/');
      var a := WordStart(line, 0);
      var e := WordStop(line, 0);
      SpanEndSpec(line, 0, true);
      assert p >= a;
      var m := Conv(line, 0);
      assert forall k :: a <= k < e ==> line[k] == m[k - a];
      assert forall k :: a <= k < e ==> line[k] != '/';
      ConvNonEmpty(line, e, p);
    }
  }

  /** The word w after white space at i..j is what %s stores, and it ends at j + |w|. */
  lemma ConvAfterSpace(s: string, i: nat, j: nat, w: string)
    requires i <= j && j + |w| <= |s| && forall k :: 0 <= k < |w| ==> s[j + k] == w[k]
    requires forall k :: i <= k < j ==> IsSpace(s[k])
    requires w != [] && forall k :: 0 <= k < |w| ==> !IsSpace(w[k])
    requires j + |w| == |s| || IsSpace(s[j + |w|])
    ensures WordStop(s, i) == j + |w| && Conv(s, i) == w
  {
    assert s[j..j + |w|] == w;
    SpanEndAt(s, i, true, j);
    ConvAt(s, j, w);
  }

  predicate NoSpace(w: string)
  {
    forall k :: 0 <= k < |w| ==> !IsSpace(w[k])
  }

  /** A request line "GET uri version" (any case of GET, with its CRLF) yields its uri. */
  lemma CheckRequestLineAccepts(m: string, uri: string, version: string)
    requires IsGet(m) && uri != [] && NoSpace(uri) && NoSpace(version) && '/' in uri
    ensures CheckRequestLine(m + " " + uri + " " + version + "\r\n") == Some(uri)
  {
    var line := m + " " + uri + " " + version + "\r\n";
    RequestLineChars(m, uri, version);
    assert forall k :: 0 <= k < |m| ==> !IsSpace(m[k]);
    ConvAfterSpace(line, 0, 0, m);
    ConvAfterSpace(line, 3, 4, uri);
    var k :| 0 <= k < |uri| && uri[k] == '/';
    RunEndBefore(line, 0, '/', 4 + k);
  }

  /** Where the words of a three-letter method, a uri and a version sit in the request line. */
  lemma RequestLineChars(m: string, uri: string, version: string)
    requires |m| == 3
    ensures var line := m + " " + uri + " " + version + "\r\n";
      |line| == |uri| + |version| + 7 &&
      (forall k :: 0 <= k < 3 ==> line[k] == m[k]) && line[3] == ' ' &&
      (forall k :: 0 <= k < |uri| ==> line[4 + k] == uri[k]) && line[4 + |uri|] == ' '
  {
  }

  /** A line whose first word is not GET is refused. */
  lemma CheckRequestLineRefusesMethod(m: string, rest: string)
    requires m != [] && NoSpace(m) && !IsGet(m)
    ensures CheckRequestLine(m + " " + rest) == None
  {
    var line := m + " " + rest;
    assert forall k :: 0 <= k < |m| ==> line[k] == m[k];
    assert line[|m|] == ' ';
    ConvAfterSpace(line, 0, 0, m);
  }

  // ---------------------------------------------------------------------------
  // The header filter of read_headers

  /** A line that ends the client's headers. */
  predicate IsBlank(line: string)
  {
    line == "\r\n" || line == "\n"
  }

  /** strncmp(line, p, strlen(p)) == 0. */
  predicate StartsWith(line: string, p: string)
  {
    ContainsAt(line, 0, p)
  }

  predicate IsHostLine(line: string)
  {
    StartsWith(line, "Host: ")
  }

  /** The lines the proxy sends its own versions of: they are not forwarded. */
  predicate IsReplaced(line: string)
  {
    StartsWith(line, "User-Agent:") || StartsWith(line, "Accept:") ||
    StartsWith(line, "Accept-Encoding:") || StartsWith(line, "Connection:") ||
    StartsWith(line, "Proxy-Connection:") || StartsWith(line, "GET")
  }

  /** The client's header lines: those before the first blank line, or all of them. */
  function HeaderLines(lines: seq<string>): (hs: seq<string>)
    ensures |hs| <= |lines| && hs == lines[..|hs|]
    decreases |lines|
  {
    if lines == [] || IsBlank(lines[0]) then [] else [lines[0]] + HeaderLines(lines[1..])
  }

  lemma {:induction false} HeaderLinesSpec(lines: seq<string>)
    ensures forall k :: 0 <= k < |HeaderLines(lines)| ==> !IsBlank(lines[k])
    ensures |HeaderLines(lines)| == |lines| || IsBlank(lines[|HeaderLines(lines)|])
    decreases |lines|
  {
    if lines != [] && !IsBlank(lines[0]) {
      HeaderLinesSpec(lines[1..]);
    }
  }

  lemma {:induction false} HeaderLinesAt(lines: seq<string>, i: nat)
    requires i <= |lines|
    requires forall k :: 0 <= k < i ==> !IsBlank(lines[k])
    requires i == |lines| || IsBlank(lines[i])
    ensures HeaderLines(lines) == lines[..i]
    decreases i
  {
    if i > 0 {
      HeaderLinesAt(lines[1..], i - 1);
      assert lines[..i] == [lines[0]] + lines[1..][..i - 1];
    }
  }

  /** The Host header read_headers leaves: the last Host line, or the proxy's own. */
  function HostHeader(hs: seq<string>, own: string): string
    decreases |hs|
  {
    if hs == [] then own
    else if IsHostLine(hs[|hs| - 1]) then hs[|hs| - 1]
    else HostHeader(hs[..|hs| - 1], own)
  }

  /** The header lines that go into other_header, in their order. */
  function Forwarded(hs: seq<string>): seq<string>
    decreases |hs|
  {
    if hs == [] then []
    else Forwarded(hs[..|hs| - 1]) + (if IsReplaced(hs[|hs| - 1]) then [] else [hs[|hs| - 1]])
  }

  /** The lines written one after the other. */
  function Concat(ls: seq<string>): string
    decreases |ls|
  {
    if ls == [] then "" else Concat(ls[..|ls| - 1]) + ls[|ls| - 1]
  }

  /** One more header line: the filters look only at that line. */
  lemma ForwardedSnoc(hs: seq<string>, l: string, own: string)
    ensures IsReplaced(l) ==> Forwarded(hs + [l]) == Forwarded(hs)
    ensures !IsReplaced(l) ==> Forwarded(hs + [l]) == Forwarded(hs) + [l]
    ensures HostHeader(hs + [l], own) == if IsHostLine(l) then l else HostHeader(hs, own)
  {
    assert (hs + [l])[..|hs|] == hs;
    assert Forwarded(hs) + [] == Forwarded(hs);
  }

  lemma ConcatSnoc(ls: seq<string>, l: string)
    ensures Concat(ls + [l]) == Concat(ls) + l
  {
    assert (ls + [l])[..|ls|] == ls;
  }

  /** Only the replaced lines are dropped: a line is forwarded iff it is a header line that is not replaced. */
  lemma {:induction false} ForwardedMembers(hs: seq<string>, x: string)
    ensures x in Forwarded(hs) <==> x in hs && !IsReplaced(x)
    decreases |hs|
  {
    if hs != [] {
      var init := hs[..|hs| - 1];
      ForwardedMembers(init, x);
      assert hs == init + [hs[|hs| - 1]];
    }
  }

  /** Forwarding keeps the order: it distributes over concatenation. */
  lemma {:induction false} ForwardedAppend(a: seq<string>, b: seq<string>)
    ensures Forwarded(a + b) == Forwarded(a) + Forwarded(b)
    decreases |b|
  {
    if b == [] {
      assert a + b == a;
    } else {
      var init := b[..|b| - 1];
      ForwardedAppend(a, init);
      assert (a + b)[..|a + b| - 1] == a + init;
    }
  }

  /** Without a Host line the proxy's own Host header stays. */
  lemma {:induction false} HostHeaderNone(hs: seq<string>, own: string)
    requires forall k :: 0 <= k < |hs| ==> !IsHostLine(hs[k])
    ensures HostHeader(hs, own) == own
    decreases |hs|
  {
    if hs != [] {
      HostHeaderNone(hs[..|hs| - 1], own);
    }
  }

  /** Otherwise the last Host line wins. */
  lemma {:induction false} HostHeaderLast(hs: seq<string>, own: string, k: nat)
    requires k < |hs| && IsHostLine(hs[k])
    requires forall j :: k < j < |hs| ==> !IsHostLine(hs[j])
    ensures HostHeader(hs, own) == hs[k]
    decreases |hs|
  {
    if k < |hs| - 1 {
      HostHeaderLast(hs[..|hs| - 1], own, k);
    }
  }

  /**
   * read_headers: from the first header line on, until a blank line (or the end of
   * input), a "Host: " line replaces the Host header, and every line that the proxy
   * does not replace is appended to other_header.  The model starts other_header empty;
   * handle_request leaves that buffer uninitialised, and this is a correction.
   */
  method ReadHeaders(lines: seq<string>, hostHeader: string) returns (host: string, other: string)
    ensures host == HostHeader(HeaderLines(lines), hostHeader)
    ensures other == Concat(Forwarded(HeaderLines(lines)))
  {
    host := hostHeader;
    other := "";
    var i := 0;
    while i < |lines| && lines[i] != "\r\n" && lines[i] != "\n"
      invariant 0 <= i <= |lines|
      invariant forall k :: 0 <= k < i ==> !IsBlank(lines[k])
      invariant host == HostHeader(lines[..i], hostHeader)
      invariant other == Concat(Forwarded(lines[..i]))
    {
      var buf := lines[i];
      assert lines[..i + 1] == lines[..i] + [buf];
      ForwardedSnoc(lines[..i], buf, hostHeader);
      if StartsWith(buf, "Host: ") {
        host := buf;
      }
      if !IsReplaced(buf) {
        ConcatSnoc(Forwarded(lines[..i]), buf);
        other := other + buf;
      }
      i := i + 1;
    }
    HeaderLinesAt(lines, i);
  }

  // ---------------------------------------------------------------------------
  // The request send_request composes

  const CRLF: string := "\r\n"

  /** The fixed header lines, without their CRLF; the long ones are written in pieces. */
  const UserAgentLine: string :=
    "User-Agent: Mozilla/5.0 (X11; " + "Linux x86_64; rv:10.0.3) " + "Gecko/20120305 Firefox/10.0.3"
  const AcceptLine: string :=
    "Accept: text/html,application/" + "xhtml+xml,application/xml;" + "q=0.9,*/*;q=0.8"
  const AcceptEncodingLine: string := "Accept-Encoding: gzip, deflate"
  const ConnectionLine: string := "Connection: close"
  const ProxyConnectionLine: string := "Proxy-Connection: close"

  function RequestLine(path: string): string
  {
    "GET " + path + " HTTP/1.0"
  }

  /** The fixed lines send_request puts after the Host header. */
  const FixedLines: seq<string> :=
    [UserAgentLine, AcceptLine, AcceptEncodingLine, ConnectionLine, ProxyConnectionLine]

  /**
   * send_request's request, as written: the request line, the Host header followed by
   * a CRLF of its own, the fixed lines (each header constant carries its CRLF), the
   * forwarded client lines and the final empty line.
   */
  function ComposeAsWritten(path: string, hostHeader: string, other: string): string
  {
    RequestLine(path) + CRLF + hostHeader + CRLF + Lines(FixedLines) + other + CRLF
  }

  /** The first CRLF at or after i, or |s|. */
  function CrlfFrom(s: string, i: nat): (k: nat)
    requires i <= |s|
    ensures i <= k <= |s|
    ensures k == |s| || (k + 2 <= |s| && s[k] == '\r' && s[k + 1] == '\n')
    decreases |s| - i
  {
    if i + 2 <= |s| && s[i] == '\r' && s[i + 1] == '\n' then i
    else if i + 2 <= |s| then CrlfFrom(s, i + 1)
    else |s|
  }

  lemma {:induction false} CrlfFromAt(s: string, i: nat, k: nat)
    requires i <= k && k + 2 <= |s| && s[k] == '\r' && s[k + 1] == '\n'
    requires forall j :: i <= j < k ==> s[j] != '\r'
    ensures CrlfFrom(s, i) == k
    decreases k - i
  {
    if i < k {
      CrlfFromAt(s, i + 1, k);
    }
  }

  /** The header block a server reads: the CRLF-terminated lines before the first empty one. */
  function Head(s: string): seq<string>
    decreases |s|
  {
    var k := CrlfFrom(s, 0);
    if k == |s| || k == 0 then [] else [s[..k]] + Head(s[k + 2..])
  }

  predicate NoCr(l: string)
  {
    forall j :: 0 <= j < |l| ==> l[j] != '\r'
  }

  /** A line a server reads as one header line. */
  predicate PlainLine(l: string)
  {
    l != [] && NoCr(l)
  }

  lemma NoCrAppend(a: string, b: string)
    requires NoCr(a) && NoCr(b)
    ensures NoCr(a + b)
  {
    assert forall j :: |a| <= j < |a + b| ==> (a + b)[j] == b[j - |a|];
  }

  lemma HeadCons(l: string, rest: string)
    requires PlainLine(l)
    ensures Head(l + CRLF + rest) == [l] + Head(rest)
  {
    var s := l + CRLF + rest;
    assert forall j :: 0 <= j < |l| ==> s[j] == l[j];
    CrlfFromAt(s, 0, |l|);
    assert s[..|l|] == l && s[|l| + 2..] == rest;
  }

  lemma HeadBlank(rest: string)
    ensures Head(CRLF + rest) == []
  {
    CrlfFromAt(CRLF + rest, 0, 0);
  }

  /** CRLF-terminated lines one after the other. */
  function Lines(ls: seq<string>): string
    decreases |ls|
  {
    if ls == [] then "" else ls[0] + CRLF + Lines(ls[1..])
  }

  lemma {:induction false} LinesAppend(a: seq<string>, b: seq<string>)
    ensures Lines(a + b) == Lines(a) + Lines(b)
    decreases |a|
  {
    if a == [] {
      assert a + b == b;
    } else {
      LinesAppend(a[1..], b);
      assert (a + b)[1..] == a[1..] + b;
    }
  }

  /** Lines followed by an empty line read back as those lines. */
  lemma {:induction false} HeadLines(ls: seq<string>, rest: string)
    requires forall k :: 0 <= k < |ls| ==> PlainLine(ls[k])
    ensures Head(Lines(ls) + CRLF + rest) == ls
    decreases |ls|
  {
    if ls == [] {
      assert Lines(ls) + CRLF + rest == CRLF + rest;
      HeadBlank(rest);
    } else {
      HeadLines(ls[1..], rest);
      assert Lines(ls) + CRLF + rest == ls[0] + CRLF + (Lines(ls[1..]) + CRLF + rest);
      HeadCons(ls[0], Lines(ls[1..]) + CRLF + rest);
    }
  }

  lemma NoCr3(a: string, b: string, c: string)
    requires NoCr(a) && NoCr(b) && NoCr(c)
    ensures NoCr(a + b + c)
  {
    NoCrAppend(a, b);
    NoCrAppend(a + b, c);
  }

  lemma UserAgentPlain()
    ensures PlainLine(UserAgentLine)
  {
    NoCr3("User-Agent: Mozilla/5.0 (X11; ", "Linux x86_64; rv:10.0.3) ", "Gecko/20120305 Firefox/10.0.3");
  }

  lemma AcceptPlain()
    ensures PlainLine(AcceptLine)
  {
    NoCr3("Accept: text/html,application/", "xhtml+xml,application/xml;", "q=0.9,*/*;q=0.8");
  }

  lemma FixedLinesPlain()
    ensures forall k :: 0 <= k < |FixedLines| ==> PlainLine(FixedLines[k])
  {
    UserAgentPlain();
    AcceptPlain();
    assert PlainLine(AcceptEncodingLine) && PlainLine(ConnectionLine) && PlainLine(ProxyConnectionLine);
  }

  lemma RequestLinePlain(path: string)
    requires NoCr(path)
    ensures PlainLine(RequestLine(path))
  {
    NoCr3("GET ", path, " HTTP/1.0");
  }

  /** A request of this shape, with the Host header a line of its own, reads back as all its lines. */
  lemma HeadOfRequest(rq: string, hostLine: string, fixed: seq<string>, ls: seq<string>)
    requires PlainLine(rq) && PlainLine(hostLine)
    requires forall k :: 0 <= k < |fixed| ==> PlainLine(fixed[k])
    requires forall k :: 0 <= k < |ls| ==> PlainLine(ls[k])
    ensures Head(rq + CRLF + hostLine + CRLF + Lines(fixed) + Lines(ls) + CRLF) == [rq, hostLine] + fixed + ls
  {
    var all := fixed + ls;
    assert forall k :: 0 <= k < |all| ==> PlainLine(all[k]);
    var body := Lines(all) + CRLF + "";
    HeadLines(all, "");
    HeadTwo(rq, hostLine, body);
    assert Head(rq + CRLF + (hostLine + CRLF + body)) == [rq, hostLine] + all;
    LinesAppend(fixed, ls);
    Regroup(rq, hostLine, Lines(fixed), Lines(ls));
    assert [rq, hostLine] + all == [rq, hostLine] + fixed + ls;
  }

  lemma HeadTwo(a: string, b: string, body: string)
    requires PlainLine(a) && PlainLine(b)
    ensures Head(a + CRLF + (b + CRLF + body)) == [a, b] + Head(body)
  {
    HeadCons(b, body);
    HeadCons(a, b + CRLF + body);
  }

  /** When the Host header carries a CRLF of its own, the header block ends after it. */
  lemma HeadOfRequestCut(rq: string, hostLine: string, x: string, y: string)
    requires PlainLine(rq) && PlainLine(hostLine)
    ensures Head(rq + CRLF + (hostLine + CRLF) + CRLF + x + y + CRLF) == [rq, hostLine]
  {
    var late := x + y + CRLF;
    Regroup(rq, hostLine, x, y);
    HeadBlank(late);
    HeadCons(hostLine, CRLF + late);
    HeadCons(rq, hostLine + CRLF + (CRLF + late));
  }

  lemma Regroup(p: string, q: string, x: string, y: string)
    ensures p + CRLF + q + CRLF + x + y + CRLF == p + CRLF + (q + CRLF + (x + y + CRLF + ""))
    ensures p + CRLF + (q + CRLF) + CRLF + x + y + CRLF == p + CRLF + (q + CRLF + (CRLF + (x + y + CRLF)))
  {
  }

  /**
   * The defect: when the client sent a Host line, host_header still ends in its CRLF,
   * and the CRLF send_request adds makes an empty line.  The server's header block
   * then ends after the Host line; the User-Agent, Connection and forwarded client
   * lines arrive as body.
   */
  lemma ComposeAsWrittenEndsAtHost(path: string, host: string, other: string)
    requires NoCr(path) && NoCr(host)
    ensures Head(ComposeAsWritten(path, "Host: " + host + CRLF, other)) ==
            [RequestLine(path), "Host: " + host]
  {
    RequestLinePlain(path);
    NoCrAppend("Host: ", host);
    HeadOfRequestCut(RequestLine(path), "Host: " + host, Lines(FixedLines), other);
  }

  /** A trailing CRLF or LF taken off a header line. */
  function StripEol(h: string): (r: string)
    ensures |r| <= |h| && r == h[..|r|]
  {
    if |h| >= 2 && h[|h| - 2..] == CRLF then h[..|h| - 2]
    else if |h| >= 1 && h[|h| - 1] == '\n' then h[..|h| - 1]
    else h
  }

  /** Taking the line end off a line gives back the line, whichever end it had. */
  lemma StripEolLine(l: string, eol: string)
    requires PlainLine(l) && '\n' !in l
    requires eol == "" || eol == CRLF || eol == "\n"
    ensures StripEol(l + eol) == l
  {
    var h := l + eol;
    assert h[..|l|] == l;
    assert h[|l| - 1] == l[|l| - 1];
    if eol == CRLF {
      assert h[|h| - 2..] == CRLF;
    } else if eol == "\n" {
      assert h[|h| - 2] == l[|l| - 1];
      assert h[|h| - 2..] != CRLF;
    } else {
      assert h == l;
      if |h| >= 2 {
        assert h[|h| - 2..][0] == l[|l| - 2];
      }
    }
  }

  /** The request as intended: the Host header is one line, whichever way it was obtained. */
  function Compose(path: string, hostHeader: string, other: string): string
  {
    ComposeAsWritten(path, StripEol(hostHeader), other)
  }

  /** Without a client Host line the proxy's own Host header has no line end, and the correction changes nothing. */
  lemma ComposeNoClientHost(path: string, host: string, other: string)
    requires host == [] || host[|host| - 1] != '\n'
    ensures Compose(path, "Host: " + host, other) == ComposeAsWritten(path, "Host: " + host, other)
  {
    var h := "Host: " + host;
    assert h[|h| - 1] != '\n';
    if |h| >= 2 {
      assert h[|h| - 2..][1] == h[|h| - 1];
    }
  }

  /**
   * With the correction the server reads the request line, the Host line, the fixed
   * lines and then every forwarded client line, in order.
   */
  lemma ComposeHead(path: string, hostLine: string, eol: string, ls: seq<string>)
    requires NoCr(path) && PlainLine(hostLine) && '\n' !in hostLine
    requires eol == "" || eol == CRLF || eol == "\n"
    requires forall k :: 0 <= k < |ls| ==> PlainLine(ls[k])
    ensures Head(Compose(path, hostLine + eol, Lines(ls))) ==
            [RequestLine(path), hostLine] + FixedLines + ls
  {
    StripEolLine(hostLine, eol);
    RequestLinePlain(path);
    FixedLinesPlain();
    HeadOfRequest(RequestLine(path), hostLine, FixedLines, ls);
  }

  // ---------------------------------------------------------------------------
  // The response relay of send_request

  type Byte = ProxyCache.Byte

  /** MAXBUF: the most bytes one Rio_readnb call hands back. */
  const MAXBUF: nat := 8192

  /** What rio_writen reports for one chunk written to the client. */
  datatype WriteResult = Written | WriteFailed(epipe: bool)

  /** The chunks one after the other. */
  function Flatten(cs: seq<seq<Byte>>): seq<Byte>
    decreases |cs|
  {
    if cs == [] then [] else Flatten(cs[..|cs| - 1]) + cs[|cs| - 1]
  }

  lemma FlattenSnoc(cs: seq<seq<Byte>>, c: seq<Byte>)
    ensures Flatten(cs + [c]) == Flatten(cs) + c
  {
    assert (cs + [c])[..|cs|] == cs;
  }

  /** The client went away while a chunk was written to it. */
  predicate Broken(ws: seq<WriteResult>)
  {
    exists k :: 0 <= k < |ws| && ws[k] == WriteFailed(true)
  }

  /** How many chunks, from chunk i on, reach rio_writen: all, or up to the first EPIPE. */
  function RelayEnd(ws: seq<WriteResult>, i: nat): (n: nat)
    requires i <= |ws|
    ensures i <= n <= |ws|
    decreases |ws| - i
  {
    if i == |ws| then i
    else if ws[i] == WriteFailed(true) then i + 1
    else RelayEnd(ws, i + 1)
  }

  /** The relay stops right after the first EPIPE, and only when there is one. */
  lemma {:induction false} RelayEndSpec(ws: seq<WriteResult>, i: nat)
    requires i <= |ws|
    ensures forall k :: i <= k < RelayEnd(ws, i) - 1 ==> ws[k] != WriteFailed(true)
    ensures RelayEnd(ws, i) < |ws| || (RelayEnd(ws, i) == |ws| && (forall k :: i <= k < |ws| - 1 ==> ws[k] != WriteFailed(true)))
    ensures (exists k :: i <= k < |ws| && ws[k] == WriteFailed(true)) <==>
            RelayEnd(ws, i) > i && ws[RelayEnd(ws, i) - 1] == WriteFailed(true)
    decreases |ws| - i
  {
    if i < |ws| && ws[i] != WriteFailed(true) {
      RelayEndSpec(ws, i + 1);
    }
  }

  /** Whether send_request stores the response: the whole of it went out and it is small. */
  predicate Cacheable(chunks: seq<seq<Byte>>, ws: seq<WriteResult>, readFailed: bool)
  {
    !Broken(ws) && !readFailed && |Flatten(chunks)| < ProxyCache.MAX_OBJECT_SIZE
  }

  /** memcpy(dst + at, src, |src|). */
  method Memcpy(dst: array<Byte>, at: nat, src: seq<Byte>)
    requires at + |src| <= dst.Length
    modifies dst
    ensures forall j :: 0 <= j < dst.Length ==>
              dst[j] == if at <= j < at + |src| then src[j - at] else old(dst[j])
  {
    var k := 0;
    while k < |src|
      invariant 0 <= k <= |src|
      invariant forall j :: 0 <= j < dst.Length ==>
                  dst[j] == if at <= j < at + k then src[j - at] else old(dst[j])
    {
      dst[at + k] := src[k];
      k := k + 1;
    }
  }

  /**
   * The relay loop of send_request: every chunk read from the server is written to
   * the client; while the running total stays below MAX_OBJECT_SIZE the chunk is also
   * copied into cache_buf.  An EPIPE on the client ends the relay; other write errors
   * are ignored.  The object is handed to the cache only when the loop ran to the end
   * without a read error and the total stayed below MAX_OBJECT_SIZE.
   */
  method Relay(chunks: seq<seq<Byte>>, writes: seq<WriteResult>, readFailed: bool)
    returns (offered: seq<Byte>, cached: Option<seq<Byte>>)
    requires |writes| == |chunks|
    requires forall k :: 0 <= k < |chunks| ==> 0 < |chunks[k]| <= MAXBUF
    ensures offered == Flatten(chunks[..RelayEnd(writes, 0)])
    ensures cached.Some? <==> Cacheable(chunks, writes, readFailed)
    ensures cached.Some? ==> cached.value == Flatten(chunks) == offered
  {
    var cacheBuf := new Byte[ProxyCache.MAX_OBJECT_SIZE];
    var size := 0;
    var ptr := 0;
    offered := [];
    var i := 0;
    while i < |chunks|
      invariant 0 <= i <= |chunks|
      invariant RelayEnd(writes, i) == RelayEnd(writes, 0)
      invariant forall k :: 0 <= k < i ==> writes[k] != WriteFailed(true)
      invariant offered == Flatten(chunks[..i]) && size == |offered|
      invariant ptr <= size && ptr <= cacheBuf.Length
      invariant size < ProxyCache.MAX_OBJECT_SIZE ==> ptr == size && cacheBuf[..ptr] == offered
    {
      var buf := chunks[i];
      var n := |buf|;
      assert chunks[..i + 1] == chunks[..i] + [buf];
      FlattenSnoc(chunks[..i], buf);
      size := size + n;
      if size < ProxyCache.MAX_OBJECT_SIZE {
        Memcpy(cacheBuf, ptr, buf);
        assert cacheBuf[..ptr + n] == offered + buf;
        ptr := ptr + n;
      }
      offered := offered + buf;
      if writes[i] == WriteFailed(true) {
        return offered, None;
      }
      i := i + 1;
    }
    assert chunks[..i] == chunks;
    if readFailed {
      return offered, None;
    }
    if size < ProxyCache.MAX_OBJECT_SIZE {
      cached := Some(cacheBuf[..size]);
    } else {
      cached := None;
    }
  }

  /**
   * send_request after the request is composed: a request that cannot be written
   * (no connection, or a failed write) ends it; otherwise the response is relayed and,
   * when it may be, stored in the cache under the uri, stamped with `now`.
   */
  method SendRequest(c: ProxyCache.Cache, uri: string, requestSent: bool,
                     chunks: seq<seq<Byte>>, writes: seq<WriteResult>, readFailed: bool, now: int)
    returns (offered: seq<Byte>)
    requires c.Valid()
    requires |writes| == |chunks|
    requires forall k :: 0 <= k < |chunks| ==> 0 < |chunks[k]| <= MAXBUF
    modifies c.Repr
    ensures c.Valid() && fresh(c.Repr - old(c.Repr))
    ensures offered == if requestSent then Flatten(chunks[..RelayEnd(writes, 0)]) else []
    ensures requestSent && Cacheable(chunks, writes, readFailed) ==>
              var obj := Flatten(chunks);
              c.contents == [ProxyCache.Entry(uri, obj, now, |obj|)] + ProxyCache.Trimmed(old(c.contents), |obj|)
    ensures !(requestSent && Cacheable(chunks, writes, readFailed)) ==> c.contents == old(c.contents)
  {
    if !requestSent {
      return [];
    }
    var cached;
    offered, cached := Relay(chunks, writes, readFailed);
    if cached.Some? {
      var obj := cached.value;
      assert obj[..|obj|] == obj;
      c.Insert(uri, obj, |obj|, now);
    }
  }

  // ---------------------------------------------------------------------------
  // handle_request

  /** What handle_request did with a client's request. */
  datatype Handled = Refused | Served(content: seq<Byte>) | Forward(target: Target, uri: string, request: string)

  /**
   * handle_request: check the request line, parse the uri, answer from the cache when
   * the object is there and the reply reaches the client, and otherwise read the
   * client's headers and compose the request for the server.  The empty line stands
   * for a client that sent nothing.
   */
  method HandleRequest(c: ProxyCache.Cache, line: string, headers: seq<string>, replyOk: bool, now: int)
    returns (r: Handled)
    requires c.Valid()
    modifies c.Repr
    ensures c.Valid() && c.Repr == old(c.Repr)
    ensures CheckRequestLine(line).None? ==> r == Refused && c.contents == old(c.contents)
    ensures CheckRequestLine(line).Some? ==>
              var uri := CheckRequestLine(line).value;
              var t := ParseUri(uri);
              var hs := HeaderLines(headers);
              var forward := Forward(t, uri, Compose(t.path, HostHeader(hs, "Host: " + t.host), Concat(Forwarded(hs))));
              match ProxyCache.FindIndex(old(c.contents), uri)
              case None => r == forward && c.contents == old(c.contents)
              case Some(i) =>
                c.contents == old(c.contents)[i := old(c.contents)[i].(age := now)] &&
                r == if replyOk then Served(old(c.contents)[i].content) else forward
  {
    var checked := CheckRequestLine(line);
    if checked.None? {
      return Refused;
    }
    var uri := checked.value;
    var t := ParseUri(uri);
    ghost var before := c.contents;
    var b := c.Find(uri, now);
    if b != null && replyOk {
      ghost var i := ProxyCache.FindIndex(before, uri).value;
      assert ProxyCache.EntryOf(c.nodes[i]) == c.contents[i];
      return Served(b.content);
    }
    var host, other := ReadHeaders(headers, "Host: " + t.host);
    r := Forward(t, uri, Compose(t.path, host, other));
  }
}
