/** What the server prints as headers, its own parser reads back. */
module HttpRoundTrip {
  import opened CStrings
  import opened HttpRequest
  import opened HttpSplit
  import opened HttpPure
  import opened HttpHead
  import R = HttpResponse

  ghost predicate Plain(raw: string) {
    EolFree(raw) && NUL !in raw
  }

  /** A 32-bit `int`. */
  predicate IsInt(n: int) {
    -0x8000_0000 <= n <= R.INT_MAX
  }

  const CONTENT_LENGTH: string := "Content-Length:"

  lemma ContentLengthEffect(q: Request, n: int, at: nat)
    requires IsInt(n) && q.check == CheckHeader
    ensures var raw := CONTENT_LENGTH + R.FormatInt(n);
            Plain(raw) && LineEffect(q, raw, at) == Effect(q.(contentLength := n), NoRequest, [])
  {
    hide R.Decimal, Atol, CStr, StrEnd;
    var dec := R.FormatInt(n);
    var raw := CONTENT_LENGTH + dec;
    forall i | 0 <= i < |raw| ensures !IsEol(raw[i]) && raw[i] != NUL {
      if i >= 15 { assert IsDigit(raw[i]) || raw[i] == '-' by { assert raw[i] == dec[i - 15]; } }
    }
    TextIsLine(raw);
    assert raw[15..] == dec;
    IsContentLength(raw);
    assert BlankSpan(dec) == 0 by { assert IsDigit(dec[0]) || dec[0] == '-'; }
    assert dec[0..] == dec;
    R.AtolFormat(n);
  }

  lemma IsContentLength(raw: string)
    requires |raw| >= 15 && raw[..15] == CONTENT_LENGTH
    ensures CaseEqN(raw, "Content-length:", 15) && !CaseEqN(raw, "Connection:", 11)
  {
    assert Take(raw, 15) == CONTENT_LENGTH;
    assert Take(raw, 11)[3] == raw[..15][3] == 't';
    var lit := Take("Connection:", 11);
    assert lit[3] == 'n';
  }

  function LingerRaw(linger: bool): string {
    "Connection:" + if linger then "keep-alive" else "close"
  }

  lemma LingerPlain(linger: bool)
    ensures Plain(LingerRaw(linger)) && NUL !in LingerRaw(linger)
  {
  }

  lemma LingerEffect(q: Request, linger: bool, at: nat)
    requires q.check == CheckHeader && !q.linger
    ensures Plain(LingerRaw(linger))
    ensures LineEffect(q, LingerRaw(linger), at) == Effect(q.(linger := linger), NoRequest, [])
  {
    hide CStr, StrEnd, Plain;
    var raw := LingerRaw(linger);
    LingerPlain(linger);
    TextIsLine(raw);
    var v := if linger then "keep-alive" else "close";
    assert raw[..11] == "Connection:" && raw[11..] == v;
    assert Take(raw, 11) == "Connection:" == Take("Connection:", 11);
    assert BlankSpan(v) == 0 && v[0..] == v;
  }

  lemma BlankEffect(q: Request, at: nat)
    requires q.check == CheckHeader
    ensures Plain("")
    ensures LineEffect(q, "", at) ==
            if q.contentLength != 0 then Effect(q.(check := CheckContent), NoRequest, [])
            else Effect(q, GetRequest, [])
  {
    hide CStr, StrEnd;
    TextIsLine("");
  }

  /** The printed headers as three lines. */
  lemma HeaderLines(pre: string, n: int, linger: bool)
    ensures var s := pre + R.HeaderText(n, linger);
            var a, b := CONTENT_LENGTH + R.FormatInt(n), LingerRaw(linger);
            var i := |pre|; var j := i + |a| + 2; var k := j + |b| + 2;
            && |s| == k + 2
            && s[i..j] == a + "\r\n" && s[j..k] == b + "\r\n" && s[k..k + 2] == "" + "\r\n"
  {
    hide R.FormatInt;
    var a, b, nl := CONTENT_LENGTH + R.FormatInt(n), LingerRaw(linger), "\r\n";
    assert R.ContentLengthLine(n) == a + nl;
    assert R.LingerLine(linger) == b + nl;
    Thirds(pre, a + nl, b + nl, nl);
  }

  lemma Thirds(pre: string, a: string, b: string, c: string)
    ensures var s := pre + (a + b + c);
            var i := |pre|; var j := i + |a|; var k := j + |b|;
            |s| == k + |c| && s[i..j] == a && s[j..k] == b && s[k..k + |c|] == c
  {
  }

  /** Fed with the printed headers, the immutable-stream parser reads back the length and the flag. */
  lemma HeaderPure(pre: string, n: int, linger: bool, q: Request)
    requires IsInt(n) && q.check == CheckHeader && !q.linger
    ensures var s := pre + R.HeaderText(n, linger);
            PureHead(s, |pre|, q) ==
            (q.(contentLength := n, linger := linger, check := if n == 0 then CheckHeader else CheckContent),
             |s|, if n == 0 then Done(GetRequest) else AtBody)
  {
    hide LineEffect, R.HeaderText, R.FormatInt, LingerRaw, PureHead, EolFree;
    var s := pre + R.HeaderText(n, linger);
    var a, b := CONTENT_LENGTH + R.FormatInt(n), LingerRaw(linger);
    var i := |pre|;
    var j := i + |a| + 2;
    var k := j + |b| + 2;
    HeaderLines(pre, n, linger);
    ContentLengthEffect(q, n, i);
    PureLine(s, i, a, q);
    var q1 := q.(contentLength := n);
    LingerEffect(q1, linger, j);
    PureLine(s, j, b, q1);
    var q2 := q1.(linger := linger);
    BlankEffect(q2, k);
    PureLine(s, k, "", q2);
  }

  /** A connection in the header state, at the end of what it has received, with a flag still false. */
  ghost predicate AwaitsHeaders(c: Conn) {
    Ready(c) && c.req.check == CheckHeader && !c.req.linger && c.startLine == c.checkedIdx == c.readIdx
  }

  lemma HeaderHead(c: Conn, n: int, linger: bool)
    requires IsInt(n) && Fits(c, R.HeaderText(n, linger)) && AwaitsHeaders(c)
    ensures var d := Feed(c, R.HeaderText(n, linger));
            var (e, end) := Head(d);
            && e.req == c.req.(contentLength := n, linger := linger,
                               check := if n == 0 then CheckHeader else CheckContent)
            && e.checkedIdx == d.readIdx && end == if n == 0 then Done(GetRequest) else AtBody
  {
    hide R.HeaderText, PureHead, Head;
    var text := R.HeaderText(n, linger);
    var d := Feed(c, text);
    assert d.buf[..d.readIdx] == c.buf[..c.readIdx] + text;
    HeadIsPure(d);
    HeaderPure(c.buf[..c.readIdx], n, linger, c.req);
  }

  /** For every non-negative `int` and linger flag: the bytes printed by `add_headers`, received in the
      header state of a connection whose flag is still false, give back the same length and flag,
      are consumed exactly, and lead to GET_REQUEST or into the body. */
  lemma HeaderRoundTrip(c: Conn, n: nat, linger: bool)
    requires n <= R.INT_MAX && Fits(c, R.HeaderText(n, linger)) && AwaitsHeaders(c)
    ensures var r := ProcessRead(Feed(c, R.HeaderText(n, linger)));
            && r.code == (if n == 0 then GetRequest else NoRequest)
            && r.conn.req == c.req.(contentLength := n, linger := linger,
                                    check := if n == 0 then CheckHeader else CheckContent)
            && r.conn.checkedIdx == r.conn.readIdx == c.readIdx + |R.HeaderText(n, linger)|
  {
    hide R.HeaderText, Head;
    var d := Feed(c, R.HeaderText(n, linger));
    HeaderHead(c, n, linger);
    ProcessIsHead(d);
    if n > 0 {
      StalledStep(Head(d).0);
    }
  }

  /** The number and the flag are read back for every `int`, also for a negative one. */
  lemma HeaderReadBack(c: Conn, n: int, linger: bool)
    requires IsInt(n) && Fits(c, R.HeaderText(n, linger)) && AwaitsHeaders(c)
    ensures var q := HeadersRead(c, R.HeaderText(n, linger));
            q.contentLength == n && q.linger == linger
  {
    hide R.HeaderText, Head, ProcessRead, Clean;
    if n >= 0 {
      HeaderRoundTrip(c, n, linger);
    } else {
      var d := Feed(c, R.HeaderText(n, linger));
      HeaderHead(c, n, linger);
      ProcessIsHead(d);
      CompleteStep(Head(d).0);
    }
  }

  // ---- Framing: the printed length and the bytes behind the blank line ----

  /** Three lines without CR, the last two not empty, a blank line, and whatever follows. */
  lemma ThreeLines(s: string, x: string, y: string, z: string, body: string)
    requires s == (x + "\r\n") + (y + "\r\n") + (z + "\r\n\r\n") + body
    requires CR !in x && CR !in y && CR !in z && y != "" && z != ""
    ensures LineEnd(s, 0) == |x| + 2 && HeadersEnd(s, 0) == |x| + |y| + |z| + 8
  {
    var i, j := |x| + 2, |x| + |y| + 4;
    var k := j + |z| + 4;
    assert s[0..i] == x + "\r\n" && s[i..j] == y + "\r\n" && s[j..k] == z + "\r\n\r\n";
    LineEndIs(s, 0, |x|);
    assert s[i] == y[0] && s[j] == z[0];
    SkipLine(s, 0, x);
    SkipLine(s, i, y);
    LastLine(s, j, z);
  }

  /** A response text as its lines. */
  lemma ResponseLines(status: int, title: string, n: int, linger: bool, body: string)
    requires CR !in title
    ensures var a, h := R.StatusLine(status, title), R.HeaderText(n, linger);
            var s := a + h + body;
            LineEnd(s, 0) == |a| && HeadersEnd(s, 0) == |a| + |h|
  {
    hide R.Decimal, HeadersEnd, LineEnd;
    var x := "HTTP/1.1 " + R.FormatInt(status) + " " + title;
    var y := CONTENT_LENGTH + R.FormatInt(n);
    var z := LingerRaw(linger);
    var s := R.StatusLine(status, title) + R.HeaderText(n, linger) + body;
    NumberPlain(status);
    NumberPlain(n);
    assert R.StatusLine(status, title) == x + "\r\n" && R.ContentLengthLine(n) == y + "\r\n";
    assert R.LingerLine(linger) + "\r\n" == z + "\r\n\r\n";
    Regroup(x + "\r\n", y + "\r\n", R.LingerLine(linger), "\r\n", body);
    ThreeLines(s, x, y, z, body);
  }

  lemma Regroup(a: string, b: string, c: string, d: string, e: string)
    ensures a + (b + c + d) + e == a + b + (c + d) + e
  {
  }

  lemma NumberPlain(n: int)
    ensures CR !in R.FormatInt(n)
  {
    forall i | 0 <= i < |R.FormatInt(n)| ensures R.FormatInt(n)[i] != CR {
      assert R.FormatInt(n)[i] == '-' || IsDigit(R.FormatInt(n)[i]);
    }
  }

  lemma TitlePlain(o: R.Outcome)
    ensures CR !in R.Title(o)
  {
  }

  /** The request after receiving `text`. */
  function HeadersRead(c: Conn, text: string): Request
    requires Fits(c, text)
  {
    ProcessRead(Feed(c, text)).conn.req
  }

  /** Cut the response `s` behind its first line and behind its first blank line: the header parser
      reads the flag in between, and as the length the number of bytes behind the blank line, the file
      included, exactly if the size of the file fits an `int`. */
  ghost predicate Framed(s: string, file: nat, linger: bool, c: Conn) {
    var i, j := LineEnd(s, 0), HeadersEnd(s, 0);
    i <= j &&
    (Fits(c, s[i..j]) ==>
       var q := HeadersRead(c, s[i..j]);
       q.linger == linger && (q.contentLength == |s| - j + file <==> file <= R.INT_MAX))
  }

  /** Every answered outcome is framed. */
  lemma ResponseFraming(o: R.Outcome, fileSize: nat, linger: bool, c: Conn)
    requires R.Answered(o, fileSize) && AwaitsHeaders(c)
    ensures Framed(R.Answer(o, fileSize, linger), R.FilePart(o, fileSize), linger, c)
  {
    hide *;
    var n := PrintedLength(o, fileSize);
    var a, h := R.StatusLine(R.Status(o), R.Title(o)), R.HeaderText(n, linger);
    AnswerShape(o, fileSize, linger);
    TitlePlain(o);
    ResponseLines(R.Status(o), R.Title(o), n, linger, R.Form(o));
    if Fits(c, h) {
      HeaderReadBack(c, n, linger);
    }
    FramedBy(a, h, R.Form(o), n, R.FilePart(o, fileSize), linger, c);
  }

  lemma FramedBy(a: string, h: string, body: string, n: int, file: nat, linger: bool, c: Conn)
    requires LineEnd(a + h + body, 0) == |a| && HeadersEnd(a + h + body, 0) == |a| + |h|
    requires Fits(c, h) ==> HeadersRead(c, h).contentLength == n && HeadersRead(c, h).linger == linger
    requires n == |body| + file <==> file <= R.INT_MAX
    ensures Framed(a + h + body, file, linger, c)
  {
    hide HeadersRead, LineEnd, HeadersEnd, Clean;
    assert (a + h + body)[|a|..|a| + |h|] == h;
  }

  /** The number behind "Content-Length:". */
  function PrintedLength(o: R.Outcome, fileSize: nat): int {
    if o.FileRequest? then R.ToInt(fileSize) else |R.Form(o)|
  }

  lemma AnswerShape(o: R.Outcome, fileSize: nat, linger: bool)
    requires R.Answered(o, fileSize)
    ensures var n := PrintedLength(o, fileSize);
            && R.Answer(o, fileSize, linger) ==
               R.StatusLine(R.Status(o), R.Title(o)) + R.HeaderText(n, linger) + R.Form(o)
            && IsInt(n)
            && (n == |R.Form(o)| + R.FilePart(o, fileSize) <==> R.FilePart(o, fileSize) <= R.INT_MAX)
  {
    hide R.StatusLine, R.HeaderText;
    if o.FileRequest? {
      assert R.FileHead(fileSize, linger) + "" == R.FileHead(fileSize, linger);
    } else {
      R.ErrorFits(o, linger);
    }
  }
}
