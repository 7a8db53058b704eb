/** The head of a request read off the immutable byte stream, line by line, and the proof that the
    destructive in-place parser computes the same. */
module HttpPure {
  import opened Wrappers
  import opened CStrings
  import opened HttpRequest
  import opened HttpSplit

  /** What a handler makes of the line `raw` that starts at index `at`. */
  function LineEffect(q: Request, raw: string, at: nat): (e: Effect) {
    var line := raw + NULS + NULS;
    var t := CStr(line, 0);
    if q.check == CheckRequestLine then ParseRequestLine(q, t, at)
    else ParseHeaders(q, t, at, HostSpan(line, t, 0))
  }

  /** The stream from index `i` on: whole lines end in CR LF; the first CR or LF that does not start a
      buffered CR LF stops the parser. */
  function PureHead(s: string, i: nat, q: Request): (h: (Request, nat, HeadEnd))
    requires i <= |s|
    decreases |s| - i
  {
    var e := FirstEol(s, i, |s|);
    if !(e + 1 < |s| && s[e] == CR && s[e + 1] == LF) then (q, e, NeedMore)
    else
      var f := LineEffect(q, s[i..e], i);
      if f.code != NoRequest then (f.req, e + 2, Done(f.code))
      else if f.req.check == CheckContent then (f.req, e + 2, AtBody)
      else PureHead(s, e + 2, f.req)
  }

  lemma FirstEolIs(b: seq<char>, i: nat, r: nat, e: nat)
    requires i <= e <= r <= |b| && (forall k :: i <= k < e ==> !IsEol(b[k])) && (e < r ==> IsEol(b[e]))
    ensures FirstEol(b, i, r) == e
  {
    var f := FirstEol(b, i, r);
    assert f < r ==> IsEol(b[f]);
  }

  lemma FirstEolSame(a: seq<char>, b: seq<char>, i: nat, r: nat)
    requires i <= r <= |a| && r <= |b| && forall k :: i <= k < r ==> a[k] == b[k]
    ensures FirstEol(a, i, r) == FirstEol(b, i, r)
  {
    hide FirstEol;
    FirstEolIs(b, i, r, FirstEol(a, i, r));
  }

  lemma {:induction false} PureLocal(a: string, b: string, i: nat, q: Request)
    requires i <= |a| == |b| && forall k :: i <= k < |a| ==> a[k] == b[k]
    ensures PureHead(a, i, q) == PureHead(b, i, q)
    decreases |a| - i
  {
    hide FirstEol, LineEffect;
    FirstEolSame(a, b, i, |a|);
    var e := FirstEol(a, i, |a|);
    if e + 1 < |a| && a[e] == CR && a[e + 1] == LF {
      assert a[i..e] == b[i..e];
      var f := LineEffect(q, a[i..e], i);
      if f.code == NoRequest && f.req.check != CheckContent {
        PureLocal(a, b, e + 2, f.req);
      }
    }
  }

  /** A C string of a buffer is the C string of the stretch of the buffer that holds its end. */
  lemma CStrShift(b: seq<char>, p: nat, line: seq<char>, k: nat)
    requires p + |line| <= |b| && (forall i :: 0 <= i < |line| ==> b[p + i] == line[i])
    requires k < |line| && line[|line| - 1] == NUL
    ensures CStr(b, p + k) == CStr(line, k)
  {
    hide StrEnd;
    var e := StrEnd(line, k);
    assert e < |line|;
    assert forall i :: p + k <= i < p + e ==> b[i] == line[i - p];
    StrEndIs(b, p + k, p + e);
  }

  lemma {:induction false} EffectIsLineEffect(c: Conn, raw: string)
    requires LineReady(c) && c.req.check != CheckContent && c.startLine + |raw| + 2 == c.checkedIdx
    requires c.buf[c.startLine..c.checkedIdx] == raw + NULS + NULS
    ensures EffectOf(c) == LineEffect(c.req, raw, c.startLine)
  {
    hide CStr, StrEnd, ParseRequestLine, ParseHeaders, HostSpan, Clean;
    var line := raw + NULS + NULS;
    assert line[|line| - 1] == NUL && line[|line| - 2] == NUL;
    forall i | 0 <= i < |line| ensures c.buf[c.startLine + i] == line[i] {
      assert c.buf[c.startLine + i] == c.buf[c.startLine..c.checkedIdx][i];
    }
    CStrShift(c.buf, c.startLine, line, 0);
    HostShift(c.buf, c.startLine, line);
  }

  lemma HostShift(b: seq<char>, p: nat, line: seq<char>)
    requires p + |line| <= |b| && (forall i :: 0 <= i < |line| ==> b[p + i] == line[i])
    requires |line| >= 2 && line[|line| - 2] == line[|line| - 1] == NUL
    ensures var t := CStr(line, 0); HostSpan(b, t, p) == HostSpan(line, t, 0)
  {
    hide CStr, StrEnd, BlankSpan;
    var t := CStr(line, 0);
    if CaseEqN(t, "Host", 5) {
      assert |t| == 4;
      TextInside(line);
      CStrShift(b, p, line, 5);
    }
  }

  lemma TextInside(line: seq<char>)
    requires |line| >= 2 && line[|line| - 2] == NUL
    ensures |CStr(line, 0)| + 2 <= |line|
  {
    assert StrEnd(line, 0) <= |line| - 2;
  }

  /** The delivered line, as the scanner leaves it in the buffer. */
  lemma DeliveredLine(c: Conn, e: nat)
    requires Ready(c) && c.startLine == c.checkedIdx && e == FirstEol(c.buf, c.checkedIdx, c.readIdx)
    requires e + 1 < c.readIdx && c.buf[e] == CR && c.buf[e + 1] == LF
    ensures var d := ParseLine(c).conn;
            && ParseLine(c).status == LineOk && d.checkedIdx == e + 2
            && d.buf[d.startLine..e + 2] == c.buf[c.startLine..e] + NULS + NULS
            && d.buf[e + 2..] == c.buf[e + 2..]
  {
    hide Clean, FirstEol, ParseLine;
    ParseLineMeaning(c);
    TwoNuls(c.buf, c.startLine, e);
  }

  lemma TwoNuls(b: seq<char>, p: nat, e: nat)
    requires p <= e && e + 2 <= |b|
    ensures var d := b[e := NUL][e + 1 := NUL];
            d[p..e + 2] == b[p..e] + NULS + NULS && d[e + 2..] == b[e + 2..]
  {
  }

  /** Parsing in place, with NULs and "judge.html" stored into the buffer on the way, gives exactly the
      request, position and end that the immutable stream determines. */
  lemma {:induction false} HeadIsPure(c: Conn)
    requires Ready(c) && c.req.check != CheckContent && c.startLine == c.checkedIdx
    ensures var h := Head(c);
            PureHead(c.buf[..c.readIdx], c.checkedIdx, c.req) == (h.0.req, h.0.checkedIdx, h.1)
    decreases c.readIdx - c.checkedIdx
  {
    hide FirstEol, LineEffect, Clean, EffectOf, Patch, CStr, ParseLine;
    var s := c.buf[..c.readIdx];
    ParseLineMeaning(c);
    ParseLineClean(c);
    FirstEolSame(c.buf, s, c.checkedIdx, c.readIdx);
    var e := FirstEol(s, c.checkedIdx, |s|);
    if e + 1 < |s| && s[e] == CR && s[e + 1] == LF {
      DeliveredLine(c, e);
      var d := ParseLine(c).conn;
      assert s[c.checkedIdx..e] == c.buf[c.startLine..e];
      EffectIsLineEffect(d, s[c.checkedIdx..e]);
      EffectFrame(d);
      PatchFrame(d.buf, EffectOf(d).stores, d.startLine, d.checkedIdx);
      var r := HandleLine(d);
      if r.code == NoRequest && r.conn.req.check != CheckContent {
        HeadIsPure(r.conn);
        SameTail(r.conn.buf, c.buf, e + 2, c.readIdx);
        PureLocal(r.conn.buf[..c.readIdx], s, e + 2, r.conn.req);
      }
    }
  }

  lemma SameTail(a: seq<char>, b: seq<char>, i: nat, r: nat)
    requires i <= r <= |a| == |b| && a[i..] == b[i..]
    ensures forall k :: i <= k < r ==> a[..r][k] == b[..r][k]
  {
    forall k | i <= k < r ensures a[..r][k] == b[..r][k] {
      assert a[k] == a[i..][k - i] == b[i..][k - i] == b[k];
    }
  }

  /** From a fresh connection: the head of any stream that fits the buffer. */
  lemma StreamDeterminesHead(s: string)
    requires |s| <= READ_BUFFER_SIZE
    ensures var h := Head(Feed(Init(), s));
            PureHead(s, 0, Init().req) == (h.0.req, h.0.checkedIdx, h.1)
  {
    hide PureHead, Head, Clean;
    var c := Feed(Init(), s);
    assert c.buf[..c.readIdx] == s;
    HeadIsPure(c);
  }

  /** One read of the whole stream waits for more body bytes exactly if the announced body is longer
      than what the stream holds behind its head. */
  lemma WaitsForBody(s: string)
    requires |s| <= READ_BUFFER_SIZE
    ensures var (q, i, end) := PureHead(s, 0, Init().req);
            end == AtBody ==> (ProcessRead(Feed(Init(), s)).code == NoRequest <==> |s| < i + q.contentLength)
  {
    hide ProcessRead, Head, PureHead, Clean;
    StreamDeterminesHead(s);
    var c := Feed(Init(), s);
    ProcessIsHead(c);
    var d := Head(c).0;
    if Head(c).1 == AtBody {
      if Incomplete(d) {
        BodyScan(d, true);
        ReadIsFrom(d);
      } else {
        CompleteStep(d);
      }
    }
  }

  /** For every stream that fits the buffer and every way of cutting it into reads: the run over the
      reads agrees with one read of the whole stream if and only if the head of the stream ends
      without a body, or the stream ends inside the body, or no read ends inside the body at a place
      where the line scanner runs on over body bytes. A cut exactly before the body is harmless; a
      cut behind at least one ordinary body byte never is. The condition is about the stream as it was
      sent and the cut points only. */
  lemma SplitIndependence(pieces: seq<string>)
    requires |Concat(pieces)| <= READ_BUFFER_SIZE
    ensures var stream := Concat(pieces);
            var (q, i, end) := PureHead(stream, 0, Init().req);
            var n := q.contentLength;
            i <= |stream| &&
            (SameOutcome(Run(Init(), pieces), ProcessRead(Feed(Init(), stream))) <==>
             end != AtBody || |stream| < i + n || CutsHarmless(stream, i, n, pieces))
  {
    hide ProcessRead, Head, PureHead, Clean, SameOutcome, CutsHarmless;
    var stream := Concat(pieces);
    SplitByHead(pieces);
    StreamDeterminesHead(stream);
    WaitsForBody(stream);
  }

  /** The request is handed over with the `n` bytes of the stream from `i` on as its body, up to the
      first NUL among them. */
  ghost predicate HandsOver(r: Result, s: string, i: nat, n: nat)
    requires i + n <= |s|
  {
    r.code == GetRequest && r.conn.checkedIdx == i && BodyText(r.conn) == CStr(s[i..i + n] + NULS, 0)
  }

  /** A body that the stream holds completely, with room for a NUL behind it, is handed over. */
  lemma BodyHandedOver(s: string, q: Request, i: nat)
    requires |s| <= READ_BUFFER_SIZE && PureHead(s, 0, Init().req) == (q, i, AtBody)
    requires 0 <= q.contentLength && i + q.contentLength <= |s| && i + q.contentLength < READ_BUFFER_SIZE
    ensures HandsOver(ProcessRead(Feed(Init(), s)), s, i, q.contentLength)
  {
    hide ProcessRead, Head, PureHead, Clean, HandsOver, Overwrite;
    StreamDeterminesHead(s);
    var c := Feed(Init(), s);
    ProcessIsHead(c);
    HeadFrame(c);
    assert c.buf[..|s|] == s;
    BodyStored(s, c.buf, Head(c).0);
  }

  lemma BodyStored(s: string, b: seq<char>, d: Conn)
    requires Ready(d) && d.req.check == CheckContent && d.startLine == d.checkedIdx && d.readIdx == |s|
    requires 0 <= d.req.contentLength && d.checkedIdx + d.req.contentLength <= |s|
    requires d.checkedIdx + d.req.contentLength < READ_BUFFER_SIZE
    requires |b| == |d.buf| && b[..|s|] == s && d.buf[d.checkedIdx..] == b[d.checkedIdx..]
    ensures HandsOver(ProcessRead(d), s, d.checkedIdx, d.req.contentLength)
  {
    hide ProcessRead, Clean, CStr, StrEnd, Overwrite;
    CompleteStep(d);
    BodyBytes(s, b, d.buf, d.checkedIdx, d.req.contentLength);
  }

  lemma BodyBytes(s: string, b: seq<char>, d: seq<char>, i: nat, n: nat)
    requires |b| == |d| && i + n <= |s| <= |b| && i + n < |b| && b[..|s|] == s && b[i..] == d[i..]
    ensures CStr(Overwrite(d, i + n, NULS), i) == CStr(s[i..i + n] + NULS, 0)
  {
    var body := s[i..i + n] + NULS;
    var x := Overwrite(d, i + n, NULS);
    forall k | 0 <= k < |body| ensures x[i + k] == body[k] {
      if k < n {
        assert x[i + k] == d[i + k] == d[i..][k] == b[i..][k] == b[i + k] == b[..|s|][i + k];
      }
    }
    CStrShift(x, i, body, 0);
  }
}
