/** The NTRIP client helpers of ntrip.go: the header reader, the Basic
    credentials, the request the client sends and the check it applies to
    the caster's response. The socket itself is not modelled: the response
    is a Reader, the text the connection delivers followed by the error
    that ends it. */
module Ntrip {
  import opened Text
  import Base64

  const MountPoint := "mnt"
  const Username := "u"
  const Password := "p"

  /** The substring whose presence in the header block means success. */
  const SuccessStatus := "HTTP/1.1 200 OK"

  // ---------------------------------------------------------------------
  // Credentials and request

  /** base64Credentials: the user-pass form of HTTP Basic authentication
      (section 2 of RFC 7617), user and password joined by ':' and encoded
      with standard base64. */
  function Base64Credentials(username: string, password: string): string
  {
    Base64.Encode(Utf8(username + ":" + password))
  }

  lemma {:induction false} Utf8Append(a: string, b: string)
    ensures Utf8(a + b) == Utf8(a) + Utf8(b)
  {
    if a == [] {
      assert a + b == b;
    } else {
      AppendSplit(a, b);
      Utf8Append(a[1..], b);
      AppendAssoc(Utf8Char(a[0]), Utf8(a[1..]), Utf8(b));
    }
  }

  lemma Utf8Colon()
    ensures Utf8(":") == [58]
  {
    assert Utf8Char(':') == [58];
    assert Utf8(":") == Utf8Char(':') + Utf8([]);
  }

  /** The credentials decode to the UTF-8 bytes of user, ':' and password,
      whatever the user name holds. */
  lemma CredentialsDecode(username: string, password: string)
    ensures Base64.Decode(Base64Credentials(username, password))
         == Some(Utf8(username) + [58] + Utf8(password))
  {
    CredentialBytes(username, password);
    Base64.DecodeEncode(Utf8(username + ":" + password));
  }

  /** When the user name has no ':' (which RFC 7617 forbids) the first ':'
      of the decoded bytes is the separator, so a server splits them back
      into the same user and password. */
  lemma CredentialsRoundTrip(username: string, password: string)
    requires ':' !in username
    ensures var u := Utf8(username);
      && Base64.Decode(Base64Credentials(username, password)) == Some(u + [58] + Utf8(password))
      && 58 !in u
  {
    CredentialsDecode(username, password);
    Utf8AsciiByte(username, ':');
  }

  lemma CredentialBytes(username: string, password: string)
    ensures Utf8(username + ":" + password) == Utf8(username) + [58] + Utf8(password)
  {
    AppendAssoc(username, ":", password);
    Utf8Append(username, ":" + password);
    Utf8Append(":", password);
    Utf8Colon();
    AppendAssoc(Utf8(username), [58], Utf8(password));
  }

  /** The request built in main: request line, four header lines and the
      empty line, each ended by CRLF. */
  function Request(mountPoint: string, credentials: string): string
  {
    "GET /" + mountPoint + " HTTP/1.1\r\n" +
    "User-Agent: NTRIP A2A Client/2.0\r\n" +
    "Connection: close\r\n" +
    "Authorization: Basic " + credentials + "\r\n" +
    "Ntrip-Version: Ntrip/2.0\r\n" +
    "\r\n"
  }

  /** The request the client sends, for its configured mount point and
      account. */
  function ClientRequest(): string
  {
    Request(MountPoint, Base64Credentials(Username, Password))
  }

  // ---------------------------------------------------------------------
  // Reading the response header block

  datatype ReadError = EOF | ConnectionError(reason: string)

  /** What the connection delivers: its text, then the error that ends it. */
  datatype Reader = Reader(data: string, failure: ReadError)

  /** The first '\n' at or after p. */
  function NextNewline(d: string, p: nat): (r: Option<nat>)
    requires p <= |d|
    ensures r.Some? ==> p <= r.value < |d| && d[r.value] == '\n'
    decreases |d| - p
  {
    if p == |d| then None
    else if d[p] == '\n' then Some(p)
    else NextNewline(d, p + 1)
  }

  /** NextNewline skips no '\n'. */
  lemma {:induction false} NextNewlineIsFirst(d: string, p: nat)
    requires p <= |d|
    ensures var r := NextNewline(d, p);
      && (r.Some? ==> forall i :: p <= i < r.value ==> d[i] != '\n')
      && (r.None? ==> forall i :: p <= i < |d| ==> d[i] != '\n')
    decreases |d| - p
  {
    if p < |d| && d[p] != '\n' {
      NextNewlineIsFirst(d, p + 1);
    }
  }

  /** bufio.Reader.ReadString('\n') from position p: the text up to and
      including the next '\n', or, when there is none, the rest of the text
      together with the error that ends the connection. */
  function ReadString(r: Reader, p: nat): (res: (string, Option<ReadError>))
    requires p <= |r.data|
  {
    match NextNewline(r.data, p)
    case Some(n) => (r.data[p..n + 1], None)
    case None => (r.data[p..], Some(r.failure))
  }

  /** The line is exactly CRLF (Go's line == "\r\n"). */
  predicate IsCrlf(line: string)
  {
    |line| == 2 && line[0] == '\r' && line[1] == '\n'
  }

  /** The end of the header block: reading lines from p, the position just
      after the first line that is exactly CRLF, or None when the text runs
      out first. */
  function HeaderEnd(d: string, p: nat): (r: Option<nat>)
    requires p <= |d|
    ensures r.Some? ==> p + 2 <= r.value <= |d|
    decreases |d| - p
  {
    match NextNewline(d, p)
    case None => None
    case Some(n) => if IsCrlf(d[p..n + 1]) then Some(n + 1) else HeaderEnd(d, n + 1)
  }

  /** What readHeaders returns for a connection. */
  function Headers(r: Reader): (string, Option<ReadError>)
  {
    match HeaderEnd(r.data, 0)
    case Some(e) => (r.data[..e], None)
    case None => ("", Some(r.failure))
  }

  /** readHeaders: append each line to the builder until a line is exactly
      CRLF; a read error returns "" and the error. `pos` is where the reader
      stands afterwards. */
  method ReadHeaders(r: Reader) returns (headers: string, err: Option<ReadError>, pos: nat)
    ensures (headers, err) == Headers(r)
    ensures pos <= |r.data|
    ensures err.None? ==> pos == |headers|
    ensures err.Some? ==> pos == |r.data|
  {
    var builder := "";
    pos := 0;
    while true
      invariant pos <= |r.data|
      invariant builder == r.data[..pos]
      invariant HeaderEnd(r.data, pos) == HeaderEnd(r.data, 0)
      decreases |r.data| - pos
    {
      var res := ReadString(r, pos);
      var line := res.0;
      ReadStringStep(r, pos);
      if res.1.Some? {
        return "", res.1, |r.data|;
      }
      builder := builder + line;
      pos := pos + |line|;
      if IsCrlf(line) {
        break;
      }
    }
    return builder, None, pos;
  }

  /** One call of ReadString in terms of HeaderEnd: an error means no
      terminator line is left; otherwise the line extends the text read so
      far, and the block ends with it exactly when it is CRLF. */
  lemma ReadStringStep(r: Reader, pos: nat)
    requires pos <= |r.data|
    ensures var (line, err) := ReadString(r, pos);
      && (err.Some? ==> HeaderEnd(r.data, pos) == None)
      && (err.None? ==>
            && pos < pos + |line| <= |r.data|
            && r.data[..pos] + line == r.data[..pos + |line|]
            && HeaderEnd(r.data, pos) ==
                 if IsCrlf(line) then Some(pos + |line|) else HeaderEnd(r.data, pos + |line|))
  {
    match NextNewline(r.data, pos)
    case None =>
    case Some(n) =>
      PrefixGrow(r.data, pos, n + 1);
      HeaderEndStep(r.data, pos, n);
  }

  // ---------------------------------------------------------------------
  // What the header reader finds

  /** A line of the response starts at i when reading from p. */
  predicate LineStart(d: string, p: nat, i: nat)
  {
    i == p || (p < i <= |d| && d[i - 1] == '\n')
  }

  /** The line starting at i is exactly CRLF. */
  predicate TerminatorAt(d: string, i: nat)
  {
    i + 1 < |d| && d[i] == '\r' && d[i + 1] == '\n'
  }

  /** The line read from p is exactly CRLF iff it starts with CR LF. */
  lemma LineIsTerminator(d: string, p: nat, n: nat)
    requires p <= |d| && NextNewline(d, p) == Some(n)
    ensures IsCrlf(d[p..n + 1]) <==> TerminatorAt(d, p)
  {
    if TerminatorAt(d, p) {
      assert n == p + 1;
    }
  }

  /** NextNewline finds the first '\n'. */
  lemma {:induction false} NextNewlineAt(d: string, p: nat, n: nat)
    requires p <= n < |d| && d[n] == '\n'
    requires forall i :: p <= i < n ==> d[i] != '\n'
    ensures NextNewline(d, p) == Some(n)
    decreases n - p
  {
    if p < n {
      NextNewlineAt(d, p + 1, n);
    }
  }

  /** HeaderEnd stops at the first terminator line and at no other. */
  lemma {:induction false} HeaderEndFindsFirstTerminator(d: string, p: nat)
    requires p <= |d|
    ensures HeaderEnd(d, p).Some? ==>
      var e := HeaderEnd(d, p).value;
      && p + 2 <= e <= |d|
      && LineStart(d, p, e - 2) && TerminatorAt(d, e - 2)
      && forall i :: p <= i < e - 2 && LineStart(d, p, i) ==> !TerminatorAt(d, i)
    ensures HeaderEnd(d, p).None? ==>
      forall i :: p <= i <= |d| && LineStart(d, p, i) ==> !TerminatorAt(d, i)
    decreases |d| - p
  {
    NextNewlineIsFirst(d, p);
    match NextNewline(d, p)
    case None =>
    case Some(n) =>
      LinesAfterFirst(d, p, n);
      LineIsTerminator(d, p, n);
      if !IsCrlf(d[p..n + 1]) {
        HeaderEndFindsFirstTerminator(d, n + 1);
      } else {
        assert n == p + 1;
      }
  }

  /** Past the first line read from p, the lines start where they start
      when reading from the end of that line. */
  lemma LinesAfterFirst(d: string, p: nat, n: nat)
    requires p <= |d| && NextNewline(d, p) == Some(n)
    ensures forall i :: p < i <= n ==> !LineStart(d, p, i)
    ensures forall i :: n + 1 <= i ==> (LineStart(d, n + 1, i) <==> LineStart(d, p, i))
  {
    NextNewlineIsFirst(d, p);
  }

  /** Conversely, a terminator line with no terminator line before it is
      where HeaderEnd stops. */
  lemma {:induction false} HeaderEndAtFirstTerminator(d: string, p: nat, j: nat)
    requires p <= j && LineStart(d, p, j) && TerminatorAt(d, j)
    requires forall i :: p <= i < j && LineStart(d, p, i) ==> !TerminatorAt(d, i)
    ensures HeaderEnd(d, p) == Some(j + 2)
    decreases |d| - p
  {
    NextNewlineIsFirst(d, p);
    match NextNewline(d, p)
    case None =>
      assert false;
    case Some(n) =>
      LineIsTerminator(d, p, n);
      if j != p {
        assert j > n;
        HeaderEndAtFirstTerminator(d, n + 1, j);
      }
  }

  /** readHeaders succeeds exactly when some line of the response is CRLF;
      it then returns the text up to and including the first such line, so
      the result ends in CRLF and no earlier line of it is CRLF. A read error
      before that line yields "" and the error: lines already read are
      dropped. */
  lemma HeadersSpec(r: Reader)
    ensures var (h, err) := Headers(r);
      && (err.None? ==>
            && 2 <= |h| <= |r.data| && h == r.data[..|h|]
            && TerminatorAt(h, |h| - 2) && LineStart(h, 0, |h| - 2)
            && forall i: nat :: i < |h| - 2 && LineStart(h, 0, i) ==> !TerminatorAt(h, i))
      && (err.Some? ==>
            && h == "" && err == Some(r.failure)
            && forall i: nat :: i <= |r.data| && LineStart(r.data, 0, i) ==> !TerminatorAt(r.data, i))
  {
    HeaderEndFindsFirstTerminator(r.data, 0);
    if HeaderEnd(r.data, 0).Some? {
      var e := HeaderEnd(r.data, 0).value;
      var h := r.data[..e];
      assert forall i: nat :: i < e - 2 && LineStart(h, 0, i) ==> LineStart(r.data, 0, i);
      assert forall i: nat :: i < e - 2 && TerminatorAt(h, i) ==> TerminatorAt(r.data, i);
      assert h[e - 2..] == r.data[e - 2..e];
    }
  }

  /** Reading stops at the terminator line: whatever the connection carries
      after the header block does not change what readHeaders returns. */
  lemma HeadersIgnoreLaterInput(r: Reader, rest: string, failure: ReadError)
    requires Headers(r).1.None?
    ensures Headers(Reader(Headers(r).0 + rest, failure)) == Headers(r)
  {
    var d := r.data;
    HeaderEndFindsFirstTerminator(d, 0);
    var e := HeaderEnd(d, 0).value;
    var h := d[..e];
    var d' := h + rest;
    assert forall i :: 0 <= i < e ==> d'[i] == d[i];
    assert forall i: nat :: i <= e - 2 ==> (LineStart(d', 0, i) <==> LineStart(d, 0, i));
    assert forall i: nat :: i <= e - 2 ==> (TerminatorAt(d', i) <==> TerminatorAt(d, i));
    HeaderEndAtFirstTerminator(d', 0, e - 2);
    assert d'[..e] == h;
  }

  // ---------------------------------------------------------------------
  // Lines one at a time

  function Shift(r: Option<nat>, k: nat): Option<nat>
  {
    match r
    case None => None
    case Some(n) => Some(n + k)
  }

  /** d is the text of whole from position k on. */
  predicate Embeds(whole: string, k: nat, d: string)
  {
    k <= |whole| && whole[k..] == d
  }

  lemma {:induction false} NextNewlineShift(whole: string, k: nat, d: string, q: nat)
    requires Embeds(whole, k, d) && q <= |d|
    ensures NextNewline(whole, k + q) == Shift(NextNewline(d, q), k)
    decreases |d| - q
  {
    if q < |d| {
      assert whole[k + q] == whole[k..][q];
      NextNewlineShift(whole, k, d, q + 1);
    }
  }

  /** The line read at q in d is the line read at k + q in whole. */
  lemma LineAfterPrefix(whole: string, k: nat, d: string, q: nat, n: nat)
    requires Embeds(whole, k, d) && q <= |d| && NextNewline(d, q) == Some(n)
    ensures NextNewline(whole, k + q) == Some(k + n)
    ensures IsCrlf(whole[k + q..k + n + 1]) <==> IsCrlf(d[q..n + 1])
  {
    NextNewlineShift(whole, k, d, q);
    SliceOfSuffix(whole, k, d, q, n + 1);
  }

  lemma HeaderEndStep(d: string, p: nat, n: nat)
    requires p <= |d| && NextNewline(d, p) == Some(n)
    ensures HeaderEnd(d, p) == if IsCrlf(d[p..n + 1]) then Some(n + 1) else HeaderEnd(d, n + 1)
  {
  }

  /** One line of HeaderEndShift: the lines agree, and so does what follows
      them when they do not end the block. */
  lemma HeaderEndShiftLine(whole: string, d: string, k: nat, q: nat, n: nat)
    requires q <= |d| && k + q <= |whole|
    requires NextNewline(d, q) == Some(n) && NextNewline(whole, k + q) == Some(k + n)
    requires IsCrlf(whole[k + q..k + n + 1]) <==> IsCrlf(d[q..n + 1])
    requires !IsCrlf(d[q..n + 1]) ==> HeaderEnd(whole, k + (n + 1)) == Shift(HeaderEnd(d, n + 1), k)
    ensures HeaderEnd(whole, k + q) == Shift(HeaderEnd(d, q), k)
  {
    HeaderEndStep(d, q, n);
    HeaderEndStep(whole, k + q, k + n);
    assert k + n + 1 == k + (n + 1);
  }

  lemma NoLineNoEnd(whole: string, k: nat, d: string, q: nat)
    requires Embeds(whole, k, d) && q <= |d| && NextNewline(d, q) == None
    ensures HeaderEnd(whole, k + q) == None && HeaderEnd(d, q) == None
  {
    NextNewlineShift(whole, k, d, q);
  }

  /** Reading the header block of a text from inside a longer text that ends
      with it finds the same block, moved by the length of what precedes. */
  lemma {:induction false} HeaderEndShift(whole: string, k: nat, d: string, q: nat)
    requires Embeds(whole, k, d) && q <= |d|
    ensures HeaderEnd(whole, k + q) == Shift(HeaderEnd(d, q), k)
    decreases |d| - q, 1
  {
    match NextNewline(d, q)
    case None =>
      NoLineNoEnd(whole, k, d, q);
    case Some(n) =>
      HeaderEndShiftCase(whole, k, d, q, n);
  }

  lemma {:induction false} HeaderEndShiftCase(whole: string, k: nat, d: string, q: nat, n: nat)
    requires Embeds(whole, k, d) && q <= |d| && NextNewline(d, q) == Some(n)
    ensures HeaderEnd(whole, k + q) == Shift(HeaderEnd(d, q), k)
    decreases |d| - q, 0
  {
    LineAfterPrefix(whole, k, d, q, n);
    if !IsCrlf(d[q..n + 1]) {
      HeaderEndShift(whole, k, d, n + 1);
    }
    HeaderEndShiftLine(whole, d, k, q, n);
  }

  /** One complete line that is not the terminator: it ends in '\n', has no
      other '\n', and is not exactly CRLF. */
  predicate PlainLine(line: string)
  {
    && |line| >= 1 && line[|line| - 1] == '\n'
    && (forall i :: 0 <= i < |line| - 1 ==> line[i] != '\n')
    && !IsCrlf(line)
  }

  /** A line that is not exactly CRLF, a bare "\n" for one, does not end the
      header block: it is kept and reading goes on after it. */
  lemma PlainLineIsKept(line: string, r: Reader)
    requires PlainLine(line)
    ensures var (h, err) := Headers(r);
      Headers(Reader(line + r.data, r.failure)) == if err.None? then (line + h, err) else ("", err)
  {
    PlainLineEnd(line, r.data);
    match HeaderEnd(r.data, 0)
    case None =>
    case Some(e) =>
      PrefixOfAppend(line, r.data, e);
  }

  /** The header block of a text after a plain line is found where it is
      found in that text, moved by the line's length. */
  lemma PlainLineEnd(line: string, data: string)
    requires PlainLine(line)
    ensures HeaderEnd(line + data, 0) == Shift(HeaderEnd(data, 0), |line|)
  {
    var d := line + data;
    PrefixOfAppend(line, data, 0);
    PlainLineFirst(line, data);
    HeaderEndStep(d, 0, |line| - 1);
    HeaderEndShift(d, |line|, data, 0);
  }

  /** The first line read from a text after a plain line is that line. */
  lemma PlainLineFirst(line: string, data: string)
    requires PlainLine(line)
    ensures NextNewline(line + data, 0) == Some(|line| - 1)
    ensures (line + data)[0..|line|] == line
  {
    var d := line + data;
    assert forall i :: 0 <= i < |line| ==> d[i] == line[i];
    NextNewlineAt(d, 0, |line| - 1);
  }

  lemma TerminatorEndsHeaders(rest: string, failure: ReadError)
    ensures Headers(Reader("\r\n" + rest, failure)) == ("\r\n", None)
  {
    var d := "\r\n" + rest;
    assert NextNewline(d, 1) == Some(1);
    assert NextNewline(d, 0) == Some(1);
    assert d[0..2] == "\r\n";
  }

  /** Text without '\n', ended by CRLF, is a line that does not end the
      header block. */
  lemma CrlfLineIsPlain(text: string)
    requires |text| >= 1 && '\n' !in text
    ensures PlainLine(text + "\r\n")
  {
    var line := text + "\r\n";
    assert forall i :: 0 <= i < |text| ==> line[i] == text[i];
    assert line[|line| - 2] == '\r';
  }

  lemma RequestLines(mountPoint: string, credentials: string)
    ensures Request(mountPoint, credentials)
      == ("GET /" + mountPoint + " HTTP/1.1\r\n") + ("User-Agent: NTRIP A2A Client/2.0\r\n"
         + ("Connection: close\r\n" + (("Authorization: Basic " + credentials + "\r\n")
         + ("Ntrip-Version: Ntrip/2.0\r\n" + "\r\n"))))
  {
  }

  /** Five lines that do not end the header block, then the terminator:
      the header block is exactly those six lines. */
  lemma FiveLinesThenTerminator(l1: string, l2: string, l3: string, l4: string, l5: string,
                                rest: string, f: ReadError)
    requires PlainLine(l1) && PlainLine(l2) && PlainLine(l3) && PlainLine(l4) && PlainLine(l5)
    ensures var block := l1 + (l2 + (l3 + (l4 + (l5 + "\r\n"))));
      Headers(Reader(l1 + (l2 + (l3 + (l4 + (l5 + ("\r\n" + rest))))), f)) == (block, None)
  {
    var x5 := "\r\n" + rest;
    TerminatorEndsHeaders(rest, f);
    PlainLineIsKept(l5, Reader(x5, f));
    var x4 := l5 + x5;
    PlainLineIsKept(l4, Reader(x4, f));
    var x3 := l4 + x4;
    PlainLineIsKept(l3, Reader(x3, f));
    var x2 := l3 + x3;
    PlainLineIsKept(l2, Reader(x2, f));
    var x1 := l2 + x2;
    PlainLineIsKept(l1, Reader(x1, f));
  }

  /** The request is exactly one header block: read back with readHeaders,
      whatever follows it, it yields the whole request and nothing more.
      This is the shape a caster parses: five CRLF-terminated lines then an
      empty CRLF line. */
  lemma RequestIsHeaderBlock(mountPoint: string, credentials: string, rest: string, failure: ReadError)
    requires '\n' !in mountPoint && '\n' !in credentials
    ensures Headers(Reader(Request(mountPoint, credentials) + rest, failure))
         == (Request(mountPoint, credentials), None)
  {
    var l1, l4 := "GET /" + mountPoint + " HTTP/1.1\r\n", "Authorization: Basic " + credentials + "\r\n";
    var l2, l3, l5 := "User-Agent: NTRIP A2A Client/2.0\r\n", "Connection: close\r\n", "Ntrip-Version: Ntrip/2.0\r\n";
    RequestLinesArePlain(mountPoint, credentials);
    FiveLinesThenTerminator(l1, l2, l3, l4, l5, rest, failure);
    RequestLines(mountPoint, credentials);
    Regroup(l1, l2, l3, l4, l5, "\r\n", rest);
  }

  lemma RequestLinesArePlain(mountPoint: string, credentials: string)
    requires '\n' !in mountPoint && '\n' !in credentials
    ensures PlainLine("GET /" + mountPoint + " HTTP/1.1\r\n")
    ensures PlainLine("User-Agent: NTRIP A2A Client/2.0\r\n")
    ensures PlainLine("Connection: close\r\n")
    ensures PlainLine("Authorization: Basic " + credentials + "\r\n")
    ensures PlainLine("Ntrip-Version: Ntrip/2.0\r\n")
  {
    FieldLineIsPlain("GET /", mountPoint, " HTTP/1.1");
    FieldLineIsPlain("Authorization: Basic ", credentials, "");
    FixedLinesArePlain();
  }

  /** A line built around a value without '\n'. */
  lemma FieldLineIsPlain(before: string, value: string, after: string)
    requires '\n' !in before && '\n' !in value && '\n' !in after && |before| >= 1
    ensures PlainLine(before + value + after + "\r\n")
  {
    var t := before + value + after;
    assert '\n' !in t;
    CrlfLineIsPlain(t);
  }

  lemma FixedLinesArePlain()
    ensures PlainLine("User-Agent: NTRIP A2A Client/2.0\r\n")
    ensures PlainLine("Connection: close\r\n")
    ensures PlainLine("Ntrip-Version: Ntrip/2.0\r\n")
  {
    CrlfLineIsPlain("User-Agent: NTRIP A2A Client/2.0");
    CrlfLineIsPlain("Connection: close");
    CrlfLineIsPlain("Ntrip-Version: Ntrip/2.0");
  }

  lemma Regroup(l1: string, l2: string, l3: string, l4: string, l5: string, t: string, rest: string)
    ensures (l1 + (l2 + (l3 + (l4 + (l5 + t))))) + rest == l1 + (l2 + (l3 + (l4 + (l5 + (t + rest)))))
  {
  }

  /** The request the client sends is one header block carrying its
      credentials: base64 never produces '\n'. */
  lemma ClientRequestIsHeaderBlock(rest: string, failure: ReadError)
    ensures Headers(Reader(ClientRequest() + rest, failure)) == (ClientRequest(), None)
  {
    var cred := Base64Credentials(Username, Password);
    assert '\n' !in cred by {
      assert !Base64.IsEncodingChar('\n');
    }
    assert '\n' !in MountPoint;
    RequestIsHeaderBlock(MountPoint, cred, rest, failure);
  }

  // ---------------------------------------------------------------------
  // The success check

  /** strings.Contains. */
  function Contains(s: string, sub: string): bool
    decreases |s|
  {
    if |sub| > |s| then false
    else if s[..|sub|] == sub then true
    else Contains(s[1..], sub)
  }

  predicate OccursAt(s: string, sub: string, i: nat)
  {
    i + |sub| <= |s| && s[i..i + |sub|] == sub
  }

  /** Contains reports exactly whether sub occurs somewhere in s. */
  lemma {:induction false} ContainsSpec(s: string, sub: string)
    ensures Contains(s, sub) ==> exists i: nat :: OccursAt(s, sub, i)
    ensures (exists i: nat :: OccursAt(s, sub, i)) ==> Contains(s, sub)
    decreases |s|
  {
    if |sub| > |s| {
    } else if s[..|sub|] == sub {
      assert OccursAt(s, sub, 0);
    } else {
      ContainsSpec(s[1..], sub);
      if Contains(s[1..], sub) {
        var i: nat :| OccursAt(s[1..], sub, i);
        assert s[i + 1..i + 1 + |sub|] == s[1..][i..i + |sub|];
        assert OccursAt(s, sub, i + 1);
      }
      if exists i: nat :: OccursAt(s, sub, i) {
        var i: nat :| OccursAt(s, sub, i);
        assert i != 0;
        assert s[1..][i - 1..i - 1 + |sub|] == s[i..i + |sub|];
        assert OccursAt(s[1..], sub, i - 1);
      }
    }
  }

  /** What main decides after sending the request. */
  datatype Verdict =
    | HeaderError(error: ReadError)
    | NotAccepted(headers: string)
    | Accepted(headers: string)

  function Handshake(r: Reader): Verdict
  {
    var (headers, err) := Headers(r);
    if err.Some? then HeaderError(err.value)
    else if !Contains(headers, SuccessStatus) then NotAccepted(headers)
    else Accepted(headers)
  }

  /** The response is accepted iff its header block was read and contains
      "HTTP/1.1 200 OK"; a status after the header block is never seen. */
  lemma HandshakeSpec(r: Reader, rest: string, failure: ReadError)
    ensures Handshake(r).Accepted? <==>
      Headers(r).1.None? && exists i: nat :: OccursAt(Headers(r).0, SuccessStatus, i)
    ensures Headers(r).1.None? ==>
      Handshake(Reader(Headers(r).0 + rest, failure)) == Handshake(r)
  {
    ContainsSpec(Headers(r).0, SuccessStatus);
    if Headers(r).1.None? {
      HeadersIgnoreLaterInput(r, rest, failure);
    }
  }
}
