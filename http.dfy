/**
  The client side of 3/http.c: reading CRLF-terminated lines, splitting a
  request target into host, port and path, validating a client's GET
  request (the request line of section 5.1 of RFC 1945 and section 3.1.1
  of RFC 7230, the absolute-form target of section 5.3.2 and the Host
  header of section 5.4 of RFC 7230, in the source's simplified reading),
  and formatting the HTTP/1.0 request sent upstream.

  The socket is a sequence of `read` outcomes: a byte, an interrupted call
  (`EINTR`, retried), or a failure; the end of the sequence is end of
  input. C strings are character sequences; wherever the source hands a
  buffer to a string function, the model first cuts it at its first NUL.
 */
module Http {
  /** One `read(fd, &c, 1)`: a byte, `EINTR`, or another error. */
  datatype Event = Byte(c: char) | Intr | Fail

  /** What `read_line` returns: a line (`n > 0`) and the input after it, end of input (`0`), or an error (`-1`). */
  datatype LineRead = Line(text: string, rest: seq<Event>) | Eof | Error

  /** The size of the `line` buffer of `http_parse_client_request`. */
  const LINE_CAP: nat := 4096
  /** The size of `host_from_hdr`. */
  const HOST_CAP: nat := 1024

  /** The bytes a string is sent as. */
  function Bytes(s: string): (ev: seq<Event>)
    ensures |ev| == |s| && forall k :: 0 <= k < |s| ==> ev[k] == Byte(s[k])
  {
    seq(|s|, k requires 0 <= k < |s| => Byte(s[k]))
  }

  /** A buffer read as a C string: up to its first NUL. */
  function CStr(s: string): (c: string)
    ensures c <= s && '\0' !in c && (|c| < |s| ==> s[|c|] == '\0')
  {
    if s == [] || s[0] == '\0' then [] else [s[0]] + CStr(s[1..])
  }

  /** A string without NUL is its own C string. */
  lemma CStrPlain(s: string)
    requires '\0' !in s
    ensures CStr(s) == s
  {
  }

  /** The last two characters are CR and LF. */
  predicate EndsCrlf(b: string)
  {
    |b| >= 2 && b[|b| - 2] == '\r' && b[|b| - 1] == '\n'
  }

  /**
    The loop of `read_line` with `buf` read so far, on a buffer of `cap`
    bytes: it stops with the line when `cap - 1` bytes are in, or right
    after a byte that completes CRLF; end of input gives `Eof`, an error
    other than `EINTR` gives `Error`, and `EINTR` is retried.
   */
  function Scan(ev: seq<Event>, cap: nat, buf: string): (r: LineRead)
    ensures r.Line? ==> buf <= r.text && |r.text| <= |buf| + |ev| && |r.rest| + (|r.text| - |buf|) <= |ev|
    ensures r.Line? && |buf| + 1 < cap ==> |r.text| > |buf|
    decreases |ev|
  {
    if |buf| + 1 >= cap then Line(buf, ev)
    else if ev == [] then Eof
    else
      match ev[0]
      case Intr => Scan(ev[1..], cap, buf)
      case Fail => Error
      case Byte(c) =>
        var b := buf + [c];
        if EndsCrlf(b) then Line(b, ev[1..]) else Scan(ev[1..], cap, b)
  }

  /** `read_line(fd, buf, cap)`. */
  function NextLine(ev: seq<Event>, cap: nat): LineRead
  {
    Scan(ev, cap, [])
  }

  /** The bytes that arrive before the first error, `EINTR`s skipped. */
  function Delivered(ev: seq<Event>): string
  {
    if ev == [] then []
    else
      match ev[0]
      case Byte(c) => [c] + Delivered(ev[1..])
      case Intr => Delivered(ev[1..])
      case Fail => []
  }

  /** No prefix of `s` of two characters or more, up to length `upto`, ends with CRLF. */
  predicate NoCrlfBefore(s: string, upto: int)
  {
    forall m :: 2 <= m <= upto && m <= |s| ==> !EndsCrlf(s[..m])
  }

  /**
    What the loop of `read_line` does, from `buf` on: a line is the bytes
    that arrive up to the first CRLF or up to `cap - 1` of them, whichever
    comes first, and the input goes on after it; `Eof` and `Error` mean
    that fewer bytes arrived, with no CRLF among them, before the end of
    input or an error.
   */
  lemma {:induction false} ScanShape(ev: seq<Event>, cap: nat, buf: string)
    requires |buf| < cap && NoCrlfBefore(buf, |buf|)
    ensures var r := Scan(ev, cap, buf); var d := buf + Delivered(ev);
      && (r.Line? ==>
            && |buf| <= |r.text| <= cap - 1 && (EndsCrlf(r.text) || |r.text| == cap - 1)
            && NoCrlfBefore(r.text, |r.text| - 1)
            && d == r.text + Delivered(r.rest))
      && (!r.Line? ==> |d| < cap - 1 && NoCrlfBefore(d, |d|))
      && (r.Eof? <==> !r.Line? && Fail !in ev)
    decreases |ev|
  {
    if |buf| + 1 >= cap {
    } else if ev == [] {
      assert buf + Delivered(ev) == buf;
    } else {
      match ev[0]
      case Intr =>
        ScanShape(ev[1..], cap, buf);
        assert Fail in ev <==> Fail in ev[1..] by {
          assert ev == [Intr] + ev[1..];
        }
      case Fail =>
        assert buf + Delivered(ev) == buf;
      case Byte(c) =>
        var b := buf + [c];
        assert buf + Delivered(ev) == b + Delivered(ev[1..]);
        assert Fail in ev <==> Fail in ev[1..] by {
          assert ev == [Byte(c)] + ev[1..];
        }
        assert NoCrlfBefore(b, |b| - 1) by {
          forall m | 2 <= m <= |b| - 1
            ensures !EndsCrlf(b[..m])
          {
            assert b[..m] == buf[..m];
          }
        }
        if EndsCrlf(b) {
        } else {
          ScanShape(ev[1..], cap, b);
        }
    }
  }

  /** A CRLF-terminated string with no earlier CRLF, that fits in the buffer, is read back as one line. */
  lemma {:induction false} ScanBytes(a: string, ev: seq<Event>, cap: nat, buf: string)
    requires a != [] && EndsCrlf(buf + a) && NoCrlfBefore(buf + a, |buf + a| - 1) && |buf + a| <= cap - 1
    ensures Scan(Bytes(a) + ev, cap, buf) == Line(buf + a, ev)
    decreases |a|
  {
    var e := Bytes(a) + ev;
    assert e[0] == Byte(a[0]) && e[1..] == Bytes(a[1..]) + ev;
    var b := buf + [a[0]];
    assert b == (buf + a)[..|b|];
    if |a| == 1 {
      assert b == buf + a;
    } else {
      assert b + a[1..] == buf + a;
      assert !EndsCrlf(b);
      ScanBytes(a[1..], ev, cap, b);
    }
  }

  /** `read_line` on the bytes of a line `a` (CRLF-terminated, no earlier CRLF, short enough) hands back `a`. */
  lemma LineOfBytes(a: string, ev: seq<Event>, cap: nat)
    requires EndsCrlf(a) && NoCrlfBefore(a, |a| - 1) && |a| <= cap - 1
    ensures NextLine(Bytes(a) + ev, cap) == Line(a, ev)
  {
    assert [] + a == a;
    ScanBytes(a, ev, cap, []);
  }

  /**
    `read_line` on a buffer `buf`: the loop stores each byte read, and
    NUL-terminates the line it returns.
   */
  method ReadLine(ev: seq<Event>, buf: array<char>) returns (n: int, rest: seq<Event>)
    requires buf.Length >= 2
    modifies buf
    ensures var r := NextLine(ev, buf.Length);
      && (r.Line? <==> n > 0) && (r.Eof? <==> n == 0) && (r.Error? <==> n == -1)
      && (r.Line? ==> n == |r.text| < buf.Length && buf[..n] == r.text && buf[n] == '\0' && rest == r.rest)
  {
    var cap := buf.Length;
    var i := 0;
    rest := ev;
    while i + 1 < cap
      invariant 0 <= i < cap && Scan(rest, cap, buf[..i]) == NextLine(ev, cap)
      decreases |rest|
    {
      if rest == [] {
        return 0, rest;
      }
      var e := rest[0];
      rest := rest[1..];
      match e
      case Intr =>
      case Fail =>
        return -1, rest;
      case Byte(c) =>
        ghost var b := buf[..i] + [c];
        buf[i] := c;
        assert buf[..i + 1] == b;
        i := i + 1;
        if i >= 2 && buf[i - 2] == '\r' && buf[i - 1] == '\n' {
          buf[i] := 0 as char;
          assert buf[..i] == b;
          return i, rest;
        }
    }
    buf[cap - 1] := 0 as char;
    n := i;
  }

  /** `isspace` in the C locale. */
  predicate IsSpace(c: char)
  {
    c == ' ' || c == '\t' || c == '\n' || c == 11 as char || c == 12 as char || c == '\r'
  }

  /** `s` without its leading white space. */
  function SkipSpace(s: string): (t: string)
    ensures |t| <= |s| && t == s[|s| - |t|..]
    ensures t == [] || !IsSpace(t[0])
    ensures forall k :: 0 <= k < |s| - |t| ==> IsSpace(s[k])
  {
    if s != [] && IsSpace(s[0]) then SkipSpace(s[1..]) else s
  }

  /** How many non-space characters `s` starts with, `w` at most. */
  function WordLen(s: string, w: nat): (k: nat)
    ensures k <= |s| && k <= w
    ensures forall j :: 0 <= j < k ==> !IsSpace(s[j])
    ensures k < |s| && k < w ==> IsSpace(s[k])
  {
    if s == [] || w == 0 || IsSpace(s[0]) then 0 else 1 + WordLen(s[1..], w - 1)
  }

  /** No white space in `s`. */
  predicate NoSpace(s: string)
  {
    forall j :: 0 <= j < |s| ==> !IsSpace(s[j])
  }

  /** What one `%Ns` conversion of `sscanf` reads. */
  datatype Scanned = Scanned(word: string, rest: string) | NoWord

  /**
    One `%Ns` conversion with width `w`: white space is skipped, then the
    word is the next non-space characters, `w` at most; there is none at
    the end of the string.
   */
  function ScanWord(s: string, w: nat): (r: Scanned)
    requires w > 0
    ensures r.NoWord? <==> forall k :: 0 <= k < |s| ==> IsSpace(s[k])
    ensures r.Scanned? ==> 1 <= |r.word| <= w && forall j :: 0 <= j < |r.word| ==> !IsSpace(r.word[j])
    ensures r.Scanned? ==> |r.word| + |r.rest| <= |s| && r.word + r.rest == s[|s| - |r.word| - |r.rest|..]
    ensures r.Scanned? ==> forall k :: 0 <= k < |s| - |r.word| - |r.rest| ==> IsSpace(s[k])
    ensures r.Scanned? ==> r.rest == [] || IsSpace(r.rest[0]) || |r.word| == w
  {
    var t := SkipSpace(s);
    if t == [] then NoWord
    else
      var k := WordLen(t, w);
      assert t[0] == s[|s| - |t|] && !IsSpace(t[0]);
      assert t[..k] + t[k..] == t && |t[..k]| + |t[k..]| == |t|;
      Scanned(t[..k], t[k..])
  }

  /** The request line as `sscanf(line, "%7s %2047s %15s", m, u, v)` splits it, when it converts all three. */
  datatype RequestLine = RequestLine(verb: string, url: string, version: string) | BadLine

  function SplitRequestLine(s: string): RequestLine
  {
    match ScanWord(s, 7)
    case NoWord => BadLine
    case Scanned(m, r1) =>
      match ScanWord(r1, 2047)
      case NoWord => BadLine
      case Scanned(u, r2) =>
        match ScanWord(r2, 15)
        case NoWord => BadLine
        case Scanned(v, _) => RequestLine(m, u, v)
  }

  /** `tolower` in the C locale. */
  function Lower(c: char): char
  {
    if 'A' <= c <= 'Z' then (c as int + 32) as char else c
  }

  /** `strncasecmp(c, "Host:", 5) == 0` for a C string `c`. */
  predicate HostPrefix(c: string)
  {
    |c| >= 5 && Lower(c[0]) == 'h' && Lower(c[1]) == 'o' && Lower(c[2]) == 's' && Lower(c[3]) == 't' && c[4] == ':'
  }

  /** A space or a tab. */
  predicate IsBlank(c: char)
  {
    c == ' ' || c == '\t'
  }

  /** `s` without its leading spaces and tabs. */
  function SkipBlanks(s: string): (t: string)
    ensures |t| <= |s| && t == s[|s| - |t|..]
    ensures t == [] || !IsBlank(t[0])
    ensures forall k :: 0 <= k < |s| - |t| ==> IsBlank(s[k])
  {
    if s != [] && IsBlank(s[0]) then SkipBlanks(s[1..]) else s
  }

  /** `strcspn(s, "\r\n")`: how many characters come before the first CR or LF. */
  function LineSpan(s: string): (k: nat)
    ensures k <= |s| && (forall j :: 0 <= j < k ==> s[j] != '\r' && s[j] != '\n')
    ensures k < |s| ==> s[k] == '\r' || s[k] == '\n'
  {
    if s == [] || s[0] == '\r' || s[0] == '\n' then 0 else 1 + LineSpan(s[1..])
  }

  /**
    The value a header line `c` (a C string) gives `host_from_hdr`: for a
    line starting `Host:` in any case, the text after the spaces and tabs
    that follow, up to CR or LF and cut to 1023 characters; nothing when
    that is empty or the line is another header.
   */
  function HostValue(c: string): (v: Option<string>)
    ensures v.Some? ==> HostPrefix(c) && 1 <= |v.value| < HOST_CAP
    ensures v.Some? ==> forall j :: 0 <= j < |v.value| ==> v.value[j] != '\r' && v.value[j] != '\n'
  {
    if !HostPrefix(c) then None
    else
      var p := SkipBlanks(c[5..]);
      var k := LineSpan(p);
      if k == 0 then None
      else Some(p[..if k >= HOST_CAP then HOST_CAP - 1 else k])
  }

  datatype Option<T> = None | Some(value: T)

  /** `isdigit` */
  predicate IsDigit(c: char)
  {
    '0' <= c <= '9'
  }

  /** How many digits `s` starts with. */
  function DigitRun(s: string): (k: nat)
    ensures k <= |s| && (forall j :: 0 <= j < k ==> IsDigit(s[j])) && (k < |s| ==> !IsDigit(s[k]))
  {
    if s == [] || !IsDigit(s[0]) then 0 else 1 + DigitRun(s[1..])
  }

  /** The number the decimal digits `ds` spell. */
  function Decimal(ds: string): nat
    requires forall j :: 0 <= j < |ds| ==> IsDigit(ds[j])
  {
    if ds == [] then 0
    else
      assert IsDigit(ds[|ds| - 1]);
      10 * Decimal(ds[..|ds| - 1]) + (ds[|ds| - 1] as int - '0' as int)
  }

  /**
    `atoi`: white space skipped, an optional sign, then the longest run of
    digits (none gives 0). The source's `int` overflow is not modelled.
   */
  function Atoi(s: string): int
  {
    var t := SkipSpace(s);
    var neg := t != [] && t[0] == '-';
    var u := if t != [] && (t[0] == '-' || t[0] == '+') then t[1..] else t;
    var n: int := Decimal(u[..DigitRun(u)]);
    if neg then -n else n
  }

  /** The index of the first `x` in `s`, or `|s|` when there is none (`strchr`, `memchr`). */
  function Find(s: string, x: char): (k: nat)
    ensures k <= |s| && (forall j :: 0 <= j < k ==> s[j] != x) && (k < |s| ==> s[k] == x)
  {
    if s == [] || s[0] == x then 0 else 1 + Find(s[1..], x)
  }

  /** What `parse_url` makes of a request target. */
  datatype Target =
    /** `http://host[:port][/path]`: `parse_url` returns 0 */
    | Absolute(host: string, port: int, path: string)
    /** a target starting with `/`: `parse_url` returns 1 */
    | Origin(path: string)
    /** anything else: `parse_url` returns -1 */
    | Unparsed

  /**
    `parse_url`: after `http://`, the host runs to the first `:` before the
    first `/` (or to that `/`, or to the end), the port is `atoi` of the
    text after that `:` (80 without one), and the path is the text from the
    first `/` (`/` without one). A target starting with `/` is a path.
   */
  function ParseUrl(url: string): Target
  {
    if |url| >= 7 && url[..7] == "http://" then Authority(url[7..])
    else if |url| > 0 && url[0] == '/' then Origin(url)
    else Unparsed
  }

  /** The absolute-form branch of `parse_url`, on the text after `http://`. */
  function Authority(p: string): Target
  {
    var slash := Find(p, '/');
    var colon := Find(p[..slash], ':');
    var path := if slash < |p| then p[slash..] else "/";
    if colon < slash then Absolute(p[..colon], Atoi(p[colon + 1..]), path)
    else Absolute(p[..slash], 80, path)
  }

  /** `host[:port]` from a Host value: split at the first `:`, port 80 without one. */
  function SplitHost(h: string): (r: (string, int))
    ensures r.0 <= h && ':' !in r.0
  {
    var colon := Find(h, ':');
    if colon < |h| then (h[..colon], Atoi(h[colon + 1..])) else (h, 80)
  }

  /** An `http_request_t`. */
  datatype Request = Request(verb: string, url: string, version: string, host: string, port: int, path: string)

  /** The request after `memset(req, 0, sizeof *req)`. */
  const BLANK: Request := Request("", "", "", "", 0, "")

  /** No CR or LF in `s`. */
  predicate LineFree(s: string)
  {
    forall j :: 0 <= j < |s| ==> s[j] != '\r' && s[j] != '\n'
  }

  /** Where the header loop of `http_parse_client_request` ends. */
  datatype Headers = HeadersEnd(host: string) | HeadersCut

  /**
    The header loop of `http_parse_client_request` with `host` the value of
    `host_from_hdr` so far: lines are read until an empty line (`\r\n`),
    each Host line setting the value; end of input or an error first cuts
    the request short.
   */
  function ReadHeaders(ev: seq<Event>, host: string): (r: Headers)
    ensures r.HeadersEnd? && r.host != host ==> 1 <= |r.host| < HOST_CAP && LineFree(r.host)
    decreases |ev|
  {
    match NextLine(ev, LINE_CAP)
    case Line(t, r) =>
      var c := CStr(t);
      if c == "\r\n" then HeadersEnd(host)
      else ReadHeaders(r, match HostValue(c) case Some(h) => h case None => host)
    case _ => HeadersCut
  }

  /** The `k`-th line `read_line` gives from `ev` on, counting from 0; after end of input or an error, that outcome stays. */
  function LineAt(ev: seq<Event>, k: nat): LineRead
    decreases k
  {
    var l := NextLine(ev, LINE_CAP);
    if k == 0 then l
    else
      match l
      case Line(_, rest) => LineAt(rest, k - 1)
      case _ => l
  }

  /** A line that does not end the headers. */
  predicate HeaderLine(l: LineRead)
  {
    l.Line? && CStr(l.text) != "\r\n"
  }

  /** The end of `http_parse_client_request`, once the headers are read: the target decides where the host comes from. */
  function Resolve(req: Request, hdr: string): (int, Request)
  {
    match ParseUrl(req.url)
    case Absolute(h, p, path) => (0, req.(host := h, port := p, path := path))
    case Origin(path) =>
      if hdr == [] then (-5, req.(path := path))
      else
        var (h, p) := SplitHost(hdr);
        (0, req.(host := h, port := p, path := path))
    case Unparsed => (-6, req)
  }

  /** `http_parse_client_request` on the input `ev`: the return code and the request it fills in. */
  function ParseRequest(ev: seq<Event>): (int, Request)
  {
    match NextLine(ev, LINE_CAP)
    case Line(t, rest) =>
      (match SplitRequestLine(CStr(t))
       case BadLine => (-2, BLANK)
       case RequestLine(m, u, v) =>
         var req := BLANK.(verb := m, url := u, version := v);
         if m != "GET" then (-3, req)
         else
           match ReadHeaders(rest, [])
           case HeadersCut => (-4, req)
           case HeadersEnd(h) => Resolve(req, h))
    case _ => (-1, BLANK)
  }

  /**
    `http_parse_client_request`: the request line is read and split, the
    method checked, then header lines are read into `host_from_hdr` until
    the empty line, and the target is resolved.
   */
  method ParseClientRequest(ev: seq<Event>) returns (rc: int, req: Request)
    ensures (rc, req) == ParseRequest(ev)
  {
    req := BLANK;
    var line := new char[LINE_CAP];
    var n, rest := ReadLine(ev, line);
    if n <= 0 {
      return -1, req;
    }
    var parts := SplitRequestLine(CStr(line[..n]));
    if parts.BadLine? {
      return -2, req;
    }
    req := req.(verb := parts.verb, url := parts.url, version := parts.version);
    if req.verb != "GET" {
      return -3, req;
    }
    var hdr: string := [];
    while true
      invariant ReadHeaders(rest, hdr) == ReadHeaders(NextLine(ev, LINE_CAP).rest, [])
      decreases |rest|
    {
      ghost var before := rest;
      n, rest := ReadLine(rest, line);
      if n <= 0 {
        return -4, req;
      }
      var c := CStr(line[..n]);
      if c == "\r\n" {
        break;
      }
      var v := HostValue(c);
      if v.Some? {
        hdr := v.value;
      }
      assert |rest| < |before|;
    }
    var res := Resolve(req, hdr);
    rc, req := res.0, res.1;
  }

  /** The request line sent upstream. */
  function GetLine(path: string): string
  {
    "GET " + path + " HTTP/1.0\r\n"
  }

  /** The Host line sent upstream. */
  function HostLine(host: string): string
  {
    "Host: " + host + "\r\n"
  }

  const CONNECTION_LINE := "Connection: close\r\n"
  const AGENT_LINE := "User-Agent: Proxy/1.0\r\n"
  /** The empty line that ends a header block. */
  const CRLF := "\r\n"

  /**
    The request `http_build_upstream_get` formats: the path (`/` when
    empty) and the host, then fixed `Connection` and `User-Agent` headers.
   */
  function UpstreamGet(req: Request): string
  {
    var path := CStr(req.path);
    GetLine(if path == [] then "/" else path)
      + (HostLine(CStr(req.host)) + (CONNECTION_LINE + (AGENT_LINE + CRLF)))
  }

  /**
    `http_build_upstream_get(out, cap, req)`, as `snprintf` does it: the
    result is the length of the whole request, and `out` holds as much of
    it as fits in `cap - 1` bytes before the terminating NUL.
   */
  function BuildUpstreamGet(req: Request, cap: nat): (r: (int, string))
    ensures r.0 == |UpstreamGet(req)| && r.1 <= UpstreamGet(req)
    ensures cap > 0 && r.0 < cap ==> r.1 == UpstreamGet(req)
    ensures |r.1| == if cap == 0 then 0 else if r.0 < cap then r.0 else cap - 1
  {
    var msg := UpstreamGet(req);
    (|msg|, if cap == 0 then [] else if |msg| < cap then msg else msg[..cap - 1])
  }

  // Reading back the request the proxy sends upstream

  /** The bytes of a concatenation, with more input after them. */
  lemma BytesConcat(a: string, b: string, ev: seq<Event>)
    ensures Bytes(a + b) + ev == Bytes(a) + (Bytes(b) + ev)
  {
    assert Bytes(a + b) == Bytes(a) + Bytes(b);
  }

  /** Text with no LF and no NUL in it. */
  predicate Clean(s: string)
  {
    forall j :: 0 <= j < |s| ==> s[j] != '\n' && s[j] != '\0'
  }

  /** A line ended by CRLF with no other LF and no NUL, short enough for the line buffer. */
  predicate CleanLine(l: string)
  {
    EndsCrlf(l) && Clean(l[..|l| - 1]) && |l| < LINE_CAP
  }

  lemma CleanConcat(a: string, b: string)
    requires Clean(a) && Clean(b)
    ensures Clean(a + b)
  {
    assert forall j :: |a| <= j < |a + b| ==> (a + b)[j] == b[j - |a|];
  }

  /** A clean line is what `read_line` reads, whole, and its own C string. */
  lemma ReadsWhole(l: string, ev: seq<Event>)
    requires CleanLine(l)
    ensures NextLine(Bytes(l) + ev, LINE_CAP) == Line(l, ev) && CStr(l) == l
  {
    forall m | 2 <= m <= |l| - 1
      ensures !EndsCrlf(l[..m])
    {
      assert l[..m][m - 1] == l[..|l| - 1][m - 1];
    }
    LineOfBytes(l, ev, LINE_CAP);
    assert forall j :: 0 <= j < |l| - 1 ==> l[j] == l[..|l| - 1][j];
    CStrPlain(l);
  }

  /** Adding CR LF to clean text gives a clean line. */
  lemma CrlfClean(a: string)
    requires Clean(a + "\r") && |a| + 2 < LINE_CAP
    ensures CleanLine(a + "\r\n")
  {
    assert (a + "\r\n")[..|a| + 1] == a + "\r";
  }

  /** `WordLen` stops at the first white space. */
  lemma {:induction false} WordLenOf(a: string, rest: string, w: nat)
    requires |a| <= w && (forall j :: 0 <= j < |a| ==> !IsSpace(a[j]))
    requires rest == [] || IsSpace(rest[0])
    ensures WordLen(a + rest, w) == |a|
    decreases |a|
  {
    if a != [] {
      assert (a + rest)[1..] == a[1..] + rest;
      WordLenOf(a[1..], rest, w - 1);
    } else {
      assert a + rest == rest;
    }
  }

  /** A word (no white space, `w` characters at most) followed by white space or nothing is what `%Ns` reads, after one space or none. */
  lemma ScanWordOf(a: string, rest: string, w: nat)
    requires 1 <= |a| <= w && (forall j :: 0 <= j < |a| ==> !IsSpace(a[j]))
    requires rest == [] || IsSpace(rest[0])
    ensures ScanWord(a + rest, w) == Scanned(a, rest)
    ensures ScanWord(" " + a + rest, w) == Scanned(a, rest)
  {
    assert (a + rest)[0] == a[0];
    assert SkipSpace(a + rest) == a + rest;
    assert (" " + a + rest)[1..] == a + rest;
    assert SkipSpace(" " + a + rest) == a + rest;
    WordLenOf(a, rest, w);
    assert (a + rest)[..|a|] == a && (a + rest)[|a|..] == rest;
  }

  /** `strcspn(s, "\r\n")` on text free of CR and LF followed by CR. */
  lemma {:induction false} LineSpanOf(a: string, rest: string)
    requires forall j :: 0 <= j < |a| ==> a[j] != '\r' && a[j] != '\n'
    requires rest != [] && rest[0] == '\r'
    ensures LineSpan(a + rest) == |a|
    decreases |a|
  {
    if a != [] {
      assert (a + rest)[1..] == a[1..] + rest;
      LineSpanOf(a[1..], rest);
    } else {
      assert a + rest == rest;
    }
  }

  /** A path the proxy can send and read back: it starts with `/`, fits `%2047s` and has no white space or NUL. */
  predicate GoodPath(p: string)
  {
    1 <= |p| <= 2047 && p[0] == '/' && forall j :: 0 <= j < |p| ==> !IsSpace(p[j]) && p[j] != '\0'
  }

  /** A host the proxy can send and read back: it fits `host_from_hdr`, does not start with a blank, has no CR, LF or NUL. */
  predicate GoodHost(h: string)
  {
    1 <= |h| < HOST_CAP && h[0] != ' ' && h[0] != '\t'
      && forall j :: 0 <= j < |h| ==> h[j] != '\r' && h[j] != '\n' && h[j] != '\0'
  }

  /** The words of the upstream request line, as `%15s` reads the last one. */
  lemma VersionWord()
    ensures ScanWord(" HTTP/1.0\r\n", 15) == Scanned("HTTP/1.0", "\r\n")
  {
    assert " " + "HTTP/1.0" + "\r\n" == " HTTP/1.0\r\n";
    assert forall j :: 0 <= j < 8 ==> !IsSpace("HTTP/1.0"[j]);
    ScanWordOf("HTTP/1.0", "\r\n", 15);
  }

  lemma GetLineClean(path: string)
    requires GoodPath(path)
    ensures CleanLine(GetLine(path))
  {
    assert GetLine(path) == ("GET " + path + " HTTP/1.0") + "\r\n";
    assert Clean(" HTTP/1.0\r");
    CleanConcat("GET ", path);
    CleanConcat("GET " + path, " HTTP/1.0\r");
    assert "GET " + path + " HTTP/1.0\r" == ("GET " + path + " HTTP/1.0") + "\r";
    CrlfClean("GET " + path + " HTTP/1.0");
  }

  /** The request line the proxy sends splits into method `GET`, the path and `HTTP/1.0`. */
  lemma GetLineSplits(path: string)
    requires GoodPath(path)
    ensures SplitRequestLine(GetLine(path)) == RequestLine("GET", path, "HTTP/1.0")
  {
    var r2 := " HTTP/1.0\r\n";
    assert GetLine(path) == "GET" + (" " + path + r2);
    ScanWordOf("GET", " " + path + r2, 7);
    ScanWordOf(path, r2, 2047);
    VersionWord();
  }

  lemma HostLineClean(host: string)
    requires GoodHost(host)
    ensures CleanLine(HostLine(host))
  {
    assert HostLine(host) == ("Host: " + host) + "\r\n";
    CleanConcat("Host: ", host);
    CleanConcat("Host: " + host, "\r");
    CrlfClean("Host: " + host);
  }

  /** The Host line the proxy sends gives `host_from_hdr` that host. */
  lemma HostLineValue(host: string)
    requires GoodHost(host)
    ensures HostLine(host) != CRLF && HostValue(HostLine(host)) == Some(host)
  {
    var l := HostLine(host);
    var t := host + "\r\n";
    assert l[5..] == " " + t;
    assert l[0] == 'H' && l[1] == 'o' && l[2] == 's' && l[3] == 't' && l[4] == ':';
    assert HostPrefix(l);
    assert t[0] == host[0];
    assert t[..|host|] == host;
    assert SkipBlanks(l[5..]) == t;
    LineSpanOf(host, "\r\n");
  }

  /** The fixed lines the proxy sends are clean lines. */
  lemma FixedLinesClean()
    ensures CleanLine(CONNECTION_LINE) && CleanLine(AGENT_LINE) && CleanLine(CRLF)
  {
    assert CONNECTION_LINE[..|CONNECTION_LINE| - 1] == "Connection: close\r";
    assert AGENT_LINE[..|AGENT_LINE| - 1] == "User-Agent: Proxy/1.0\r";
    assert Clean("Connection: close\r");
    assert Clean("User-Agent: Proxy/1.0\r");
  }

  /** The fixed header lines the proxy sends are no Host lines. */
  lemma FixedLinesNoHost()
    ensures CONNECTION_LINE != CRLF && HostValue(CONNECTION_LINE) == None
    ensures AGENT_LINE != CRLF && HostValue(AGENT_LINE) == None
  {
    assert CONNECTION_LINE[0] == 'C' && AGENT_LINE[0] == 'U';
    assert !HostPrefix(CONNECTION_LINE) && !HostPrefix(AGENT_LINE);
  }

  /**
    The header loop is cut short exactly when some read gives end of input
    or an error while every line before it is a header line, that is, before
    a line whose C string is `\r\n`.
   */
  lemma {:induction false} HeadersCutWhen(ev: seq<Event>, host: string)
    ensures ReadHeaders(ev, host).HeadersCut? <==> exists k: nat :: CutAt(ev, k)
    decreases |ev|
  {
    var l := NextLine(ev, LINE_CAP);
    assert LineAt(ev, 0) == l;
    match l
    case Line(t, rest) =>
      ScanShape(ev, LINE_CAP, []);
      if CStr(t) == "\r\n" {
        forall k: nat
          ensures !CutAt(ev, k)
        {
          assert !HeaderLine(LineAt(ev, 0));
        }
      } else {
        var h := match HostValue(CStr(t)) case Some(v) => v case None => host;
        HeadersCutWhen(rest, h);
        if exists k: nat :: CutAt(ev, k) {
          var k: nat :| CutAt(ev, k);
          ShiftDown(ev, t, rest, k);
        }
        if exists k: nat :: CutAt(rest, k) {
          var k: nat :| CutAt(rest, k);
          ShiftUp(ev, t, rest, k);
        }
      }
    case _ =>
      assert CutAt(ev, 0);
  }

  /** The `k`-th read from `ev` is the first that gives no line, and the ones before it are header lines. */
  ghost predicate CutAt(ev: seq<Event>, k: nat)
  {
    !LineAt(ev, k).Line? && forall j :: 0 <= j < k ==> HeaderLine(LineAt(ev, j))
  }

  /** Past a header line, a cut at read `k` is a cut at read `k - 1` of the input after it. */
  lemma ShiftDown(ev: seq<Event>, t: string, rest: seq<Event>, k: nat)
    requires NextLine(ev, LINE_CAP) == Line(t, rest) && CutAt(ev, k)
    ensures k > 0 && CutAt(rest, k - 1)
  {
    assert LineAt(ev, 0).Line?;
    assert LineAt(ev, k) == LineAt(rest, k - 1);
    forall j | 0 <= j < k - 1
      ensures HeaderLine(LineAt(rest, j))
    {
      assert LineAt(ev, j + 1) == LineAt(rest, j);
      assert HeaderLine(LineAt(ev, j + 1));
    }
  }

  /** Past a header line, a cut at read `k` of the input after it is a cut at read `k + 1`. */
  lemma ShiftUp(ev: seq<Event>, t: string, rest: seq<Event>, k: nat)
    requires NextLine(ev, LINE_CAP) == Line(t, rest) && CStr(t) != "\r\n" && CutAt(rest, k)
    ensures CutAt(ev, k + 1)
  {
    assert LineAt(ev, k + 1) == LineAt(rest, k);
    forall j | 0 <= j < k + 1
      ensures HeaderLine(LineAt(ev, j))
    {
      if j > 0 {
        assert LineAt(ev, j) == LineAt(rest, j - 1);
      }
    }
  }

  /** One header line that is not the empty line: the loop goes on with the value it gives. */
  lemma HeaderStep(l: string, ev: seq<Event>, host: string)
    requires CleanLine(l) && l != CRLF
    ensures ReadHeaders(Bytes(l) + ev, host) == ReadHeaders(ev, match HostValue(l) case Some(h) => h case None => host)
  {
    ReadsWhole(l, ev);
  }

  /** The empty line ends the headers. */
  lemma HeaderEnd(ev: seq<Event>, host: string)
    ensures ReadHeaders(Bytes(CRLF) + ev, host) == HeadersEnd(host)
  {
    FixedLinesClean();
    ReadsWhole(CRLF, ev);
  }

  /** The header block the proxy sends gives the host it names. */
  lemma HeadersBack(host: string, ev: seq<Event>)
    requires GoodHost(host)
    ensures ReadHeaders(Bytes(HostLine(host)) + (Bytes(CONNECTION_LINE) + (Bytes(AGENT_LINE) + (Bytes(CRLF) + ev))), []) == HeadersEnd(host)
  {
    var e5 := Bytes(CRLF) + ev;
    var e4 := Bytes(AGENT_LINE) + e5;
    var e3 := Bytes(CONNECTION_LINE) + e4;
    HostLineClean(host);
    HostLineValue(host);
    FixedLinesClean();
    FixedLinesNoHost();
    HeaderStep(HostLine(host), e3, []);
    HeaderStep(CONNECTION_LINE, e4, host);
    HeaderStep(AGENT_LINE, e5, host);
    HeaderEnd(ev, host);
  }

  /** A target starting with `/` is in origin form. */
  lemma OriginForm(p: string)
    requires p != [] && p[0] == '/'
    ensures ParseUrl(p) == Origin(p)
  {
    if |p| >= 7 {
      assert p[..7][0] == '/';
    }
  }

  /** Of two Host lines, the later one gives `host_from_hdr`. */
  lemma LastHostWins(a: string, b: string, ev: seq<Event>, host: string)
    requires GoodHost(a) && GoodHost(b)
    ensures ReadHeaders(Bytes(HostLine(a)) + (Bytes(HostLine(b)) + ev), host) == ReadHeaders(ev, b)
  {
    HostLineClean(a);
    HostLineValue(a);
    HostLineClean(b);
    HostLineValue(b);
    HeaderStep(HostLine(a), Bytes(HostLine(b)) + ev, host);
    HeaderStep(HostLine(b), ev, a);
  }

  /** `strncasecmp` makes the case of `Host` irrelevant. */
  lemma HostCaseBlind(c: string, d: string)
    requires |c| == |d| && (forall j :: 0 <= j < 4 && j < |c| ==> Lower(c[j]) == Lower(d[j]))
    requires |c| < 4 || c[4..] == d[4..]
    ensures HostValue(c) == HostValue(d)
  {
    if |c| >= 5 {
      assert c[4] == c[4..][0] && d[4] == d[4..][0];
      assert c[5..] == c[4..][1..] && d[5..] == d[4..][1..];
    }
  }

  /** A Host value longer than `host_from_hdr` holds is cut to 1023 characters. */
  lemma HostCut(v: string, rest: string)
    requires |v| >= HOST_CAP && v[0] != ' ' && v[0] != '\t' && LineFree(v)
    ensures HostValue("Host:" + v + rest) == Some(v[..HOST_CAP - 1])
  {
    var c := "Host:" + v + rest;
    assert c[5..] == v + rest;
    assert c[0] == 'H' && c[1] == 'o' && c[2] == 's' && c[3] == 't' && c[4] == ':';
    assert (v + rest)[0] == v[0];
    var k := LineSpan(v + rest);
    assert k >= HOST_CAP;
    assert (v + rest)[..HOST_CAP - 1] == v[..HOST_CAP - 1];
  }

  /** The bytes of the upstream request, line by line. */
  lemma UpstreamBytes(req: Request, ev: seq<Event>)
    requires GoodPath(req.path) && GoodHost(req.host)
    ensures Bytes(UpstreamGet(req)) + ev
      == Bytes(GetLine(req.path)) + (Bytes(HostLine(req.host)) + (Bytes(CONNECTION_LINE) + (Bytes(AGENT_LINE) + (Bytes(CRLF) + ev))))
  {
    var l1 := GetLine(req.path);
    var l2 := HostLine(req.host);
    CStrPlain(req.path);
    CStrPlain(req.host);
    assert UpstreamGet(req) == l1 + (l2 + (CONNECTION_LINE + (AGENT_LINE + CRLF)));
    BytesConcat(AGENT_LINE, CRLF, ev);
    BytesConcat(CONNECTION_LINE, AGENT_LINE + CRLF, ev);
    BytesConcat(l2, CONNECTION_LINE + (AGENT_LINE + CRLF), ev);
    BytesConcat(l1, l2 + (CONNECTION_LINE + (AGENT_LINE + CRLF)), ev);
  }

  /** A `GET` request line for a path, then headers that name a host. */
  lemma ParseGet(path: string, ev: seq<Event>, host: string)
    requires GoodPath(path) && host != [] && ReadHeaders(ev, []) == HeadersEnd(host)
    ensures var hp := SplitHost(host);
      ParseRequest(Bytes(GetLine(path)) + ev) == (0, Request("GET", path, "HTTP/1.0", hp.0, hp.1, path))
  {
    GetLineBack(path, ev);
  }

  /** The request line the proxy sends, read and split, with a target in origin form. */
  lemma GetLineBack(path: string, ev: seq<Event>)
    requires GoodPath(path)
    ensures NextLine(Bytes(GetLine(path)) + ev, LINE_CAP) == Line(GetLine(path), ev)
    ensures SplitRequestLine(CStr(GetLine(path))) == RequestLine("GET", path, "HTTP/1.0")
    ensures ParseUrl(path) == Origin(path)
  {
    GetLineClean(path);
    ReadsWhole(GetLine(path), ev);
    GetLineSplits(path);
    OriginForm(path);
  }

  /**
    The request the proxy sends upstream, read by its own client parser,
    gives back the method, the path and the host: the port is the one the
    Host value names, 80 when it names none (the upstream request does not
    carry the port it was built with).
   */
  lemma UpstreamGetParses(req: Request, ev: seq<Event>)
    requires GoodPath(req.path) && GoodHost(req.host)
    ensures var hp := SplitHost(req.host);
      ParseRequest(Bytes(UpstreamGet(req)) + ev) == (0, Request("GET", req.path, "HTTP/1.0", hp.0, hp.1, req.path))
  {
    UpstreamBytes(req, ev);
    HeadersBack(req.host, ev);
    ParseGet(req.path, Bytes(HostLine(req.host)) + (Bytes(CONNECTION_LINE) + (Bytes(AGENT_LINE) + (Bytes(CRLF) + ev))), req.host);
  }

  // Targets and Host values the parser takes apart

  /** The decimal digits of `n`, most significant first, as `%d` prints them. */
  function ShowNat(n: nat): (s: string)
    ensures |s| >= 1 && forall j :: 0 <= j < |s| ==> IsDigit(s[j])
  {
    if n < 10 then [('0' as int + n) as char] else ShowNat(n / 10) + [('0' as int + n % 10) as char]
  }

  lemma {:induction false} DecimalShow(n: nat)
    ensures Decimal(ShowNat(n)) == n
  {
    var s := ShowNat(n);
    if n >= 10 {
      assert s[..|s| - 1] == ShowNat(n / 10);
      DecimalShow(n / 10);
    }
  }

  /** `DigitRun` stops at the first character that is no digit. */
  lemma {:induction false} DigitRunOf(a: string, rest: string)
    requires forall j :: 0 <= j < |a| ==> IsDigit(a[j])
    requires rest == [] || !IsDigit(rest[0])
    ensures DigitRun(a + rest) == |a|
    decreases |a|
  {
    if a != [] {
      assert (a + rest)[1..] == a[1..] + rest;
      DigitRunOf(a[1..], rest);
    } else {
      assert a + rest == rest;
    }
  }

  /** `atoi` reads back the number `%d` printed, up to the first character that is no digit. */
  lemma AtoiShow(n: nat, rest: string)
    requires rest == [] || !IsDigit(rest[0])
    ensures Atoi(ShowNat(n) + rest) == n
  {
    var s := ShowNat(n) + rest;
    assert s[0] == ShowNat(n)[0];
    assert SkipSpace(s) == s;
    DigitRunOf(ShowNat(n), rest);
    assert s[..|ShowNat(n)|] == ShowNat(n);
    DecimalShow(n);
  }

  /** `strchr`/`memchr` find the first occurrence. */
  lemma {:induction false} FindOf(a: string, x: char, rest: string)
    requires x !in a
    ensures Find(a + [x] + rest, x) == |a|
    decreases |a|
  {
    if a != [] {
      assert (a + [x] + rest)[1..] == a[1..] + [x] + rest;
      FindOf(a[1..], x, rest);
    } else {
      assert a + [x] + rest == [x] + rest;
    }
  }

  /** `Find` on text without the character. */
  lemma {:induction false} FindNone(a: string, x: char)
    requires x !in a
    ensures Find(a, x) == |a|
    decreases |a|
  {
    if a != [] {
      FindNone(a[1..], x);
    }
  }

  /** An authority part of an absolute-form target: no `:` or `/` in it. */
  predicate PlainHost(h: string)
  {
    ':' !in h && '/' !in h
  }

  /** The path of an absolute-form target: empty, or from its first `/`. */
  predicate PlainPath(path: string)
  {
    path == [] || path[0] == '/'
  }

  /** A target starting `http://` is in absolute form. */
  lemma Scheme(p: string)
    ensures ParseUrl("http://" + p) == Authority(p)
  {
    var url := "http://" + p;
    assert url[..7] == "http://" && url[7..] == p;
  }

  /**
    `parse_url` takes `http://host:port/path` apart into the host, the
    port and the path (`/` when the target has none).
   */
  lemma ParseUrlPort(h: string, port: nat, path: string)
    requires PlainHost(h) && PlainPath(path)
    ensures ParseUrl("http://" + (h + ":" + ShowNat(port) + path)) == Absolute(h, port, if path == [] then "/" else path)
  {
    Scheme(h + ":" + ShowNat(port) + path);
    AuthorityPort(h, port, path);
  }

  lemma AuthorityPort(h: string, port: nat, path: string)
    requires PlainHost(h) && PlainPath(path)
    ensures Authority(h + ":" + ShowNat(port) + path) == Absolute(h, port, if path == [] then "/" else path)
  {
    PortSlash(h, port, path);
    PortColon(h, port, path);
  }

  /** In `host:port/path` the first `/` is the one that starts the path. */
  lemma PortSlash(h: string, port: nat, path: string)
    requires PlainHost(h) && PlainPath(path)
    ensures var a := h + ":" + ShowNat(port);
      Find(a + path, '/') == |a| && (a + path)[|a|..] == path
  {
    var n := ShowNat(port);
    var a := h + ":" + n;
    assert '/' !in a by {
      assert forall j :: |h| < j < |a| ==> IsDigit(a[j]);
      assert a[|h|] == ':';
      assert forall j :: 0 <= j < |h| ==> a[j] == h[j];
    }
    if path == [] {
      assert a + path == a;
      FindNone(a, '/');
    } else {
      assert a + path == a + ['/'] + path[1..];
      FindOf(a, '/', path[1..]);
    }
  }

  /** In `host:port/path` the host runs to the first `:`, and the port after it reads back. */
  lemma PortColon(h: string, port: nat, path: string)
    requires PlainHost(h) && PlainPath(path)
    ensures var a := h + ":" + ShowNat(port); var p := a + path;
      Find(p[..|a|], ':') == |h| && p[..|h|] == h && Atoi(p[|h| + 1..]) == port
  {
    var n := ShowNat(port);
    var a := h + ":" + n;
    var p := a + path;
    assert p[..|a|] == a;
    assert a == h + [':'] + n;
    FindOf(h, ':', n);
    assert p == h + (":" + (n + path));
    assert p == (h + ":") + (n + path);
    assert p[|h| + 1..] == n + path;
    assert p[..|h|] == h;
    AtoiShow(port, path);
  }

  /** `parse_url` on `http://host/path`: port 80. */
  lemma ParseUrlNoPort(h: string, path: string)
    requires PlainHost(h) && PlainPath(path)
    ensures ParseUrl("http://" + (h + path)) == Absolute(h, 80, if path == [] then "/" else path)
  {
    Scheme(h + path);
    AuthorityNoPort(h, path);
  }

  lemma AuthorityNoPort(h: string, path: string)
    requires PlainHost(h) && PlainPath(path)
    ensures Authority(h + path) == Absolute(h, 80, if path == [] then "/" else path)
  {
    var p := h + path;
    if path == [] {
      assert p == h;
      FindNone(h, '/');
    } else {
      assert p == h + ['/'] + path[1..];
      FindOf(h, '/', path[1..]);
      assert p[|h|..] == path;
    }
    assert p[..|h|] == h;
    FindNone(h, ':');
  }

  /** A Host value `host:port` gives that host and port; one without `:` gives port 80. */
  lemma SplitHostBack(h: string, port: nat)
    requires ':' !in h
    ensures SplitHost(h + ":" + ShowNat(port)) == (h, port)
    ensures SplitHost(h) == (h, 80)
  {
    var v := h + ":" + ShowNat(port);
    assert v == h + [':'] + ShowNat(port);
    FindOf(h, ':', ShowNat(port));
    assert v[..|h|] == h && v[|h| + 1..] == ShowNat(port) + [];
    AtoiShow(port, []);
    FindNone(h, ':');
  }

  // What a parsed request promises

  /** The three words `sscanf` stores: non-empty, within their widths, without white space. */
  lemma RequestLineWords(s: string)
    ensures var r := SplitRequestLine(s);
      r.RequestLine? ==>
        && 1 <= |r.verb| <= 7 && 1 <= |r.url| <= 2047 && 1 <= |r.version| <= 15
        && NoSpace(r.verb) && NoSpace(r.url) && NoSpace(r.version)
  {
    var w1 := ScanWord(s, 7);
    if w1.Scanned? {
      var w2 := ScanWord(w1.rest, 2047);
      if w2.Scanned? {
        var w3 := ScanWord(w2.rest, 15);
        if w3.Scanned? {
          assert SplitRequestLine(s) == RequestLine(w1.word, w2.word, w3.word);
        }
      }
    }
  }

  /** The host `parse_url` copies has no `:` or `/`, and the path starts with `/`. */
  lemma AuthorityShape(p: string)
    ensures var r := Authority(p);
      r.Absolute? && ':' !in r.host && '/' !in r.host && r.path != [] && r.path[0] == '/'
  {
    var slash := Find(p, '/');
    var colon := Find(p[..slash], ':');
    assert '/' !in p[..slash];
    if colon < slash {
      assert p[..colon] == p[..slash][..colon];
    }
  }

  /** What each of the three results of `parse_url` promises. */
  lemma TargetShape(url: string)
    ensures var r := ParseUrl(url);
      && (r.Absolute? ==> ':' !in r.host && '/' !in r.host && r.path != [] && r.path[0] == '/')
      && (r.Origin? ==> r.path == url && url != [] && url[0] == '/')
      && (r.Unparsed? <==> !(|url| >= 7 && url[..7] == "http://") && (url == [] || url[0] != '/'))
  {
    if |url| >= 7 && url[..7] == "http://" {
      AuthorityShape(url[7..]);
    }
  }

  /**
    The end of `http_parse_client_request`: 0 for an absolute-form target,
    or an origin-form one with a Host value; -5 for an origin-form target
    without one; -6 for any other target. The request line's words are
    kept, a path always starts with `/`, and a host never holds `:`.
   */
  lemma ResolveCodes(req: Request, hdr: string)
    ensures var p := Resolve(req, hdr); var rc := p.0; var r := p.1; var t := ParseUrl(req.url);
      && (rc == 0 || rc == -5 || rc == -6)
      && (rc == -6 <==> t.Unparsed?)
      && (rc == -5 <==> t.Origin? && hdr == [])
      && r.verb == req.verb && r.url == req.url && r.version == req.version
      && (rc == 0 ==> r.path != [] && r.path[0] == '/' && ':' !in r.host)
      && (rc == 0 && t.Absolute? ==> r.host == t.host && r.port == t.port)
      && (rc == 0 && t.Origin? ==> r.host <= hdr)
      && (rc == 0 && t.Origin? && |hdr| < HOST_CAP && LineFree(hdr) ==> |r.host| < HOST_CAP && LineFree(r.host))
  {
    TargetShape(req.url);
  }

  /**
    The return codes of `http_parse_client_request`: -1 when no request
    line arrives, -2 when it does not split into three words, -3 for a
    method other than `GET`, -4 when the headers are cut short, then the
    codes of the target's resolution. From -3 on, the request holds the
    request line's words; with 0, a `GET` for a path starting with `/`,
    from a host that, taken from a Host header, fits its buffer.
   */
  lemma RequestCodes(ev: seq<Event>)
    ensures var p := ParseRequest(ev); var rc := p.0; var r := p.1;
      && -6 <= rc <= 0
      && (rc == -1 <==> !NextLine(ev, LINE_CAP).Line?)
      && (rc == -1 || rc == -2 ==> r == BLANK)
      && (rc != -1 && rc != -2 ==>
            && 1 <= |r.verb| <= 7 && 1 <= |r.url| <= 2047 && 1 <= |r.version| <= 15
            && NoSpace(r.verb) && NoSpace(r.url) && NoSpace(r.version))
      && (rc == -3 <==> rc != -1 && rc != -2 && r.verb != "GET")
      && (rc == 0 ==> r.verb == "GET" && r.path != [] && r.path[0] == '/' && ':' !in r.host)
      && (rc == 0 && ParseUrl(r.url).Origin? ==> |r.host| < HOST_CAP && LineFree(r.host))
    ensures var p := ParseRequest(ev); var rc := p.0; var r := p.1;
      var nl := NextLine(ev, LINE_CAP);
      var sl := if nl.Line? then SplitRequestLine(CStr(nl.text)) else BadLine;
      var get := sl.RequestLine? && sl.verb == "GET";
      var hd := if get then ReadHeaders(nl.rest, []) else HeadersCut;
      && (rc == -2 <==> nl.Line? && sl.BadLine?)
      && (sl.RequestLine? ==> r.verb == sl.verb && r.url == sl.url && r.version == sl.version)
      && (rc == -4 <==> get && hd.HeadersCut?)
      && (rc == -5 <==> get && hd.HeadersEnd? && ParseUrl(sl.url).Origin? && hd.host == [])
      && (rc == -6 <==> get && hd.HeadersEnd? && ParseUrl(sl.url).Unparsed?)
  {
    var nl := NextLine(ev, LINE_CAP);
    if nl.Line? {
      RequestLineWords(CStr(nl.text));
      var sl := SplitRequestLine(CStr(nl.text));
      if sl.RequestLine? && sl.verb == "GET" {
        var hd := ReadHeaders(nl.rest, []);
        if hd.HeadersEnd? {
          ResolveCodes(BLANK.(verb := sl.verb, url := sl.url, version := sl.version), hd.host);
        }
      }
    }
  }
}
