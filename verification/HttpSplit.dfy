/** Whether the parser's outcome depends on how the byte stream was cut into pieces. */
module HttpSplit {
  import opened Wrappers
  import opened CStrings
  import opened HttpRequest

  function Concat(pieces: seq<string>): string {
    if pieces == [] then "" else pieces[0] + Concat(pieces[1..])
  }

  /** `process_read` after each read, up to the first outcome other than NO_REQUEST. */
  function Run(c: Conn, pieces: seq<string>): (r: Result)
    requires Ready(c) && c.readIdx + |Concat(pieces)| <= READ_BUFFER_SIZE
    ensures Ready(r.conn) && c.checkedIdx <= r.conn.checkedIdx
    decreases |pieces|
  {
    if pieces == [] then Result(c, NoRequest)
    else
      var r := ProcessRead(Feed(c, pieces[0]));
      if r.code != NoRequest then r else Run(r.conn, pieces[1..])
  }

  // ---- Reading more bytes commutes with everything done before the body ----

  ghost predicate Fits(c: Conn, t: string) {
    Ready(c) && c.readIdx + |t| <= READ_BUFFER_SIZE
  }

  lemma FeedConcat(c: Conn, a: string, b: string)
    requires Fits(c, a + b)
    ensures Feed(Feed(c, a), b) == Feed(c, a + b)
  {
    assert Feed(Feed(c, a), b).buf == Feed(c, a + b).buf;
  }

  lemma FeedNothing(c: Conn)
    requires Fits(c, "")
    ensures Feed(c, "") == c
  {
    assert Feed(c, "").buf == c.buf;
  }

  /** A delivered or bad line is unaffected by later bytes; an open one is scanned on from where the
      scan stopped. */
  lemma {:induction false} ScanFeed(c: Conn, t: string)
    requires Fits(c, t)
    ensures var s := ParseLine(c);
            Fits(s.conn, t) &&
            ParseLine(Feed(c, t)) ==
              if s.status == LineOpen then ParseLine(Feed(s.conn, t))
              else Scan(Feed(s.conn, t), s.status)
    decreases c.readIdx - c.checkedIdx
  {
    ParseLineClean(c);
    var i := c.checkedIdx;
    if i < c.readIdx {
      assert Feed(c, t).buf[i] == c.buf[i];
      if !IsEol(c.buf[i]) {
        ScanFeed(c.(checkedIdx := i + 1), t);
      } else if c.buf[i] == CR && i + 1 < c.readIdx {
        ScanFeedCr(c, t);
      } else if c.buf[i] == LF && i > 1 {
        assert !IsEol(c.buf[i - 1]);
      }
    }
  }

  lemma ScanFeedCr(c: Conn, t: string)
    requires Fits(c, t) && c.checkedIdx + 1 < c.readIdx && c.buf[c.checkedIdx] == CR
    ensures var s := ParseLine(c);
            Fits(s.conn, t) && ParseLine(Feed(c, t)) == Scan(Feed(s.conn, t), s.status)
  {
    hide Clean, Overwrite;
    ParseLineClean(c);
    var i := c.checkedIdx;
    CrLfOverwrite(c.buf, i, c.readIdx, t);
  }

  lemma CrLfOverwrite(b: seq<char>, i: nat, r: nat, t: string)
    requires i + 1 < r && r + |t| <= |b|
    ensures var d := Overwrite(b, r, t);
            && d[i] == b[i] && d[i + 1] == b[i + 1]
            && d[i := NUL][i + 1 := NUL] == Overwrite(b[i := NUL][i + 1 := NUL], r, t)
  {
  }

  function FeedResult(r: Result, t: string): Result
    requires Fits(r.conn, t)
  {
    Result(Feed(r.conn, t), r.code)
  }

  lemma TextFeed(c: Conn, t: string, text: nat)
    requires Fits(c, t) && text < c.checkedIdx && c.buf[c.checkedIdx - 1] == NUL
    ensures CStr(Feed(c, t).buf, text) == CStr(c.buf, text)
  {
    assert Feed(c, t).buf[..c.checkedIdx] == c.buf[..c.checkedIdx];
    CStrLocal(c.buf, Feed(c, t).buf, text, c.checkedIdx);
  }

  /** Stores below the read position and the bytes received at it do not meet. */
  lemma {:induction false} PatchFeed(b: seq<char>, stores: seq<Store>, r: nat, t: string)
    requires r + |t| <= |b| && StoresOk(stores, 0, r)
    ensures StoresOk(stores, 0, |b|)
    ensures Patch(Overwrite(b, r, t), stores) == Overwrite(Patch(b, stores), r, t)
    decreases |stores|
  {
    if stores != [] {
      var s := stores[0];
      assert Overwrite(Overwrite(b, r, t), s.at, s.bytes) == Overwrite(Overwrite(b, s.at, s.bytes), r, t);
      PatchFeed(Overwrite(b, s.at, s.bytes), stores[1..], r, t);
    }
  }

  lemma EffectFeed(c: Conn, t: string)
    requires Fits(c, t) && c.req.check != CheckContent && LineReady(c)
    ensures EffectOf(Feed(c, t)) == EffectOf(c)
  {
    TextFeed(c, t, c.startLine);
    if CaseEqN(Line(c), "Host", 5) {
      assert |Line(c)| == 4;
      assert StrEnd(c.buf, c.startLine) <= c.checkedIdx - 2;
      TextFeed(c, t, c.startLine + 5);
    }
  }

  lemma HandleFeed(c: Conn, t: string)
    requires Fits(c, t) && c.req.check != CheckContent && LineReady(c)
    ensures HandleLine(Feed(c, t)) == FeedResult(HandleLine(c), t)
  {
    EffectFeed(c, t);
    EffectFrame(c);
    PatchFeed(c.buf, EffectOf(c).stores, c.readIdx, t);
  }

  // ---- The head of a request: everything up to the blank line ----

  datatype HeadEnd = NeedMore | Done(code: Code) | AtBody

  /** The loop of `process_read` up to the point where the blank line moves it to the body. */
  function Head(c: Conn): (h: (Conn, HeadEnd))
    requires Ready(c) && c.req.check != CheckContent
    ensures Ready(h.0) && h.0.readIdx == c.readIdx && c.checkedIdx <= h.0.checkedIdx
    ensures h.1 == AtBody <==> h.0.req.check == CheckContent
    ensures h.1.Done? ==> h.1.code != NoRequest
    ensures h.1 == AtBody ==> h.0.startLine == h.0.checkedIdx
    decreases c.readIdx - c.checkedIdx
  {
    var s := NextLine(c, true);
    if s.status != LineOk then (s.conn, NeedMore)
    else
      var r := HandleLine(s.conn);
      if r.code != NoRequest then (r.conn, Done(r.code))
      else if r.conn.req.check == CheckContent then (r.conn, AtBody)
      else Head(r.conn)
  }

  lemma {:induction false} ProcessIsHead(c: Conn)
    requires Ready(c) && c.req.check != CheckContent
    ensures var h := Head(c);
            ProcessRead(c) == match h.1
                              case NeedMore => Result(h.0, NoRequest)
                              case Done(code) => Result(h.0, code)
                              case AtBody => ProcessRead(h.0)
    decreases c.readIdx - c.checkedIdx
  {
    var s := NextLine(c, true);
    if s.status == LineOk {
      var r := HandleLine(s.conn);
      if r.code == NoRequest && r.conn.req.check != CheckContent {
        ProcessIsHead(r.conn);
      }
    }
  }

  /** A scan that delivered no line delivers none again without new bytes. */
  lemma ScanIdempotent(c: Conn)
    requires Ready(c) && ParseLine(c).status != LineOk
    ensures Ready(ParseLine(c).conn) && ParseLine(ParseLine(c).conn) == ParseLine(c)
  {
    ParseLineClean(c);
    ParseLineMeaning(c);
    ParseLineMeaning(ParseLine(c).conn);
  }

  lemma {:induction false} HeadFeed(c: Conn, t: string)
    requires Fits(c, t) && c.req.check != CheckContent
    ensures var h := Head(c);
            Fits(h.0, t) &&
            Head(Feed(c, t)) == if h.1 == NeedMore then Head(Feed(h.0, t)) else (Feed(h.0, t), h.1)
    decreases c.readIdx - c.checkedIdx
  {
    ParseLineClean(c);
    ScanFeed(c, t);
    var s := ParseLine(c);
    if s.status == LineOk {
      HandleFeed(s.conn, t);
      var r := HandleLine(s.conn);
      if r.code == NoRequest && r.conn.req.check != CheckContent {
        HeadFeed(r.conn, t);
      }
    } else {
      ScanIdempotent(c);
      ScanFeed(s.conn, t);
    }
  }

  /** Nothing more can be done in the head without new bytes. */
  ghost predicate Quiet(c: Conn) {
    Ready(c) && c.req.check != CheckContent && Head(c) == (c, NeedMore)
  }

  lemma {:induction false} HeadQuiet(c: Conn)
    requires Ready(c) && c.req.check != CheckContent && Head(c).1 == NeedMore
    ensures Quiet(Head(c).0)
    decreases c.readIdx - c.checkedIdx
  {
    ParseLineClean(c);
    var s := ParseLine(c);
    if s.status == LineOk {
      HeadQuiet(HandleLine(s.conn).conn);
    } else {
      ScanIdempotent(c);
    }
  }

  /** The blank line that starts the body ends behind everything read so far. */
  lemma BodyIsAhead(c: Conn, t: string)
    requires Quiet(c) && Fits(c, t) && Head(Feed(c, t)).1 == AtBody
    ensures c.readIdx < Head(Feed(c, t)).0.checkedIdx
  {
    hide ParseLine, Clean, HandleLine;
    LineIsAhead(c, t);
  }

  /** A line that could not be delivered yet ends behind everything read so far. */
  lemma LineIsAhead(c: Conn, t: string)
    requires Fits(c, t) && ParseLine(c).status != LineOk && ParseLine(c).conn == c
    ensures ParseLine(Feed(c, t)).status == LineOk ==> c.readIdx < ParseLine(Feed(c, t)).conn.checkedIdx
  {
    hide Clean, FirstEol, ParseLine;
    ParseLineMeaning(c);
    ScanFeed(c, t);
    ParseLineMeaning(Feed(c, t));
  }

  // ---- The body ----

  predicate Incomplete(c: Conn) {
    c.readIdx < c.req.contentLength + c.checkedIdx
  }

  /** While the body is incomplete `process_read` keeps running the line scanner over body bytes. */
  function Drain(c: Conn): (d: Conn)
    requires Ready(c)
    ensures Ready(d) && c.checkedIdx <= d.checkedIdx
    ensures d == c.(buf := d.buf, checkedIdx := d.checkedIdx)
    decreases c.readIdx - c.checkedIdx
  {
    ParseLineClean(c);
    var s := ParseLine(c);
    if s.status == LineOk then Drain(s.conn) else s.conn
  }

  lemma {:induction false} DrainStart(c: Conn, k: nat)
    requires Ready(c) && k <= c.checkedIdx
    ensures Drain(c.(startLine := k)) == Drain(c).(startLine := k)
    decreases c.readIdx - c.checkedIdx
  {
    var d := c.(startLine := k);
    ParseLineMeaning(c);
    ParseLineMeaning(d);
    ParseLineClean(c);
    if ParseLine(c).status == LineOk {
      assert ParseLine(d).conn == ParseLine(c).conn.(startLine := k);
      DrainStart(ParseLine(c).conn, k);
    }
  }

  lemma {:induction false} DrainFeed(c: Conn, t: string)
    requires Fits(c, t)
    ensures Drain(Feed(c, t)) == Drain(Feed(Drain(c), t))
    decreases c.readIdx - c.checkedIdx
  {
    ParseLineClean(c);
    ScanFeed(c, t);
    if ParseLine(c).status == LineOk {
      DrainFeed(ParseLine(c).conn, t);
    } else {
      ScanIdempotent(c);
      ScanFeed(ParseLine(c).conn, t);
    }
  }

  lemma DrainIdempotent(c: Conn)
    requires Ready(c)
    ensures Drain(Drain(c)) == Drain(c)
  {
    FeedNothing(c);
    FeedNothing(Drain(c));
    DrainFeed(c, "");
  }

  lemma IncompleteStep(c: Conn)
    requires Ready(c) && c.req.check == CheckContent && Incomplete(c)
    ensures HandleLine(c) == Result(c.(startLine := c.checkedIdx), NoRequest)
  {
  }

  lemma {:induction false} BodyScan(c: Conn, ok: bool)
    requires Ready(c) && c.req.check == CheckContent && Incomplete(c)
    ensures var r := ProcessFrom(c, ok);
            r.code == NoRequest && r.conn == Drain(c).(startLine := r.conn.startLine)
    decreases c.readIdx - c.checkedIdx, ok
  {
    if ok {
      IncompleteStep(c);
      BodyScan(c.(startLine := c.checkedIdx), false);
      DrainStart(c, c.checkedIdx);
    } else {
      ParseLineClean(c);
      var s := ParseLine(c);
      if s.status == LineOk {
        IncompleteStep(s.conn);
        BodyScan(s.conn.(startLine := s.conn.checkedIdx), false);
        DrainStart(s.conn, s.conn.checkedIdx);
      }
    }
  }

  /** The scanner makes no progress on the bytes [i, r) of `b`: there are none, or the first is an LF,
      or it is a CR that is the last one or is not followed by an LF. */
  predicate Stalled(b: seq<char>, i: nat, r: nat)
    requires i <= r <= |b|
  {
    r == i || b[i] == LF || (b[i] == CR && (i + 1 == r || b[i + 1] != LF))
  }

  lemma DrainStalled(c: Conn)
    requires Ready(c)
    ensures Stalled(c.buf, c.checkedIdx, c.readIdx) ==> Drain(c) == c
    ensures !Stalled(c.buf, c.checkedIdx, c.readIdx) ==> c.checkedIdx < Drain(c).checkedIdx
  {
    hide ParseLine, Clean;
    ParseLineMeaning(c);
    ParseLineClean(c);
  }

  /** What two results have in common: the code, the parsed request with its pointers, the scan
      position, the buffer before it and the text of a body. */
  ghost predicate SameOutcome(r: Result, w: Result) {
    && Ready(r.conn) && Ready(w.conn)
    && r.code == w.code && r.conn.req == w.conn.req
    && r.conn.checkedIdx == w.conn.checkedIdx
    && r.conn.buf[..r.conn.checkedIdx] == w.conn.buf[..w.conn.checkedIdx]
    && (r.code == GetRequest && r.conn.req.check == CheckContent && r.conn.req.contentLength > 0 ==>
          BodyText(r.conn) == BodyText(w.conn))
  }

  function BodyText(c: Conn): string {
    if c.req.body.Some? && c.req.body.value <= |c.buf| then CStr(c.buf, c.req.body.value) else ""
  }

  lemma CompleteStep(c: Conn)
    requires Ready(c) && c.req.check == CheckContent && !Incomplete(c) && c.startLine == c.checkedIdx
    ensures var end := c.checkedIdx + c.req.contentLength;
            ProcessRead(c) ==
            if 0 <= end < READ_BUFFER_SIZE
            then Result(c.(buf := Overwrite(c.buf, end, NULS), req := c.req.(body := Some(c.startLine))),
                        GetRequest)
            else Result(c, Undefined)
  {
    var end := c.checkedIdx + c.req.contentLength;
    if 0 <= end < READ_BUFFER_SIZE {
      PatchAtMostOne(c.buf, [Store(end, NULS)]);
    }
  }

  lemma BodyEndFeed(b: seq<char>, r: nat, t: string, i: nat, k: nat)
    requires r + |t| <= |b| && i < |b| && i <= r && k <= r
    ensures Overwrite(b, i, NULS)[..k] == Overwrite(Overwrite(b, r, t), i, NULS)[..k]
    ensures k <= i ==> CStr(Overwrite(b, i, NULS), k) == CStr(Overwrite(Overwrite(b, r, t), i, NULS), k)
  {
    var b1, b2 := Overwrite(b, i, NULS), Overwrite(Overwrite(b, r, t), i, NULS);
    if k <= i {
      assert b1[..i + 1] == b2[..i + 1] && b1[i] == NUL;
      CStrLocal(b1, b2, k, i + 1);
    }
  }

  /** Two connections with the same request and the same body text behind it come out alike. */
  lemma {:induction false} BodyTaken(c: Conn, d: Conn)
    requires Ready(c) && Ready(d) && d.req == c.req && d.checkedIdx == c.checkedIdx
    requires c.buf[..c.checkedIdx] == d.buf[..d.checkedIdx]
    requires c.req.body == Some(c.checkedIdx)
    requires c.req.contentLength >= 0 ==> CStr(c.buf, c.checkedIdx) == CStr(d.buf, d.checkedIdx)
    ensures SameOutcome(Result(c, GetRequest), Result(d, GetRequest))
  {
    hide CStr, Clean;
  }

  /** A body that is complete is taken the same way whatever follows it. */
  lemma {:induction false} CompleteFeed(c: Conn, t: string)
    requires Fits(c, t) && c.req.check == CheckContent && !Incomplete(c) && c.startLine == c.checkedIdx
    ensures ProcessRead(c).code != NoRequest
    ensures SameOutcome(ProcessRead(c), ProcessRead(Feed(c, t)))
  {
    hide Clean, ProcessRead, CStr, StrEnd, ParseLine, Stalled, Overwrite;
    var i := c.checkedIdx + c.req.contentLength;
    CompleteStep(c);
    CompleteStep(Feed(c, t));
    if 0 <= i < READ_BUFFER_SIZE {
      hide SameOutcome;
      BodyEndFeed(c.buf, c.readIdx, t, i, c.checkedIdx);
      BodyTaken(ProcessRead(c).conn, ProcessRead(Feed(c, t)).conn);
    } else {
      assert c.buf[..c.checkedIdx] == Feed(c, t).buf[..c.checkedIdx];
    }
  }

  /** No outcome is reached while the body stays incomplete, and the scanner ends where one pass over
      all the bytes ends. */
  lemma {:induction false} RunIncomplete(c: Conn, pieces: seq<string>)
    requires Fits(c, Concat(pieces)) && c.req.check == CheckContent
    requires Incomplete(Feed(c, Concat(pieces))) && Drain(c) == c
    ensures var r := Run(c, pieces);
            r.code == NoRequest && r.conn == Drain(Feed(c, Concat(pieces))).(startLine := r.conn.startLine)
    decreases |pieces|
  {
    if pieces == [] {
      FeedNothing(c);
    } else {
      var t := Concat(pieces[1..]);
      FeedConcat(c, pieces[0], t);
      var d := Feed(c, pieces[0]);
      BodyScan(d, true);
      DrainIdempotent(d);
      DrainFeed(d, t);
      var e := ProcessRead(d).conn;
      DrainStart(Drain(d), e.startLine);
      RunIncomplete(e, pieces[1..]);
      assert Feed(e, t) == Feed(Drain(d), t).(startLine := e.startLine);
      DrainStart(Feed(Drain(d), t), e.startLine);
    }
  }

  /** `process_read` on what is buffered, then the run over the remaining reads. */
  function RunFed(c: Conn, pieces: seq<string>): (r: Result)
    requires Fits(c, Concat(pieces))
    ensures Ready(r.conn) && c.checkedIdx <= r.conn.checkedIdx
  {
    var r := ProcessRead(c);
    if r.code != NoRequest then r else Run(r.conn, pieces)
  }

  /** No read ends inside the body [i, i + n) at a place where the scanner moves on over body bytes.
      `pos` is where the first of the reads has ended. */
  predicate HarmlessCuts(b: seq<char>, i: nat, n: int, pos: nat, pieces: seq<string>)
    requires pos + |Concat(pieces)| <= |b|
    decreases |pieces|
  {
    && (i <= pos < i + n ==> Stalled(b, i, pos))
    && (pieces != [] ==> HarmlessCuts(b, i, n, pos + |pieces[0]|, pieces[1..]))
  }

  lemma {:induction false} CutsBehindBody(b: seq<char>, i: nat, n: int, pos: nat, pieces: seq<string>)
    requires pos + |Concat(pieces)| <= |b| && i + n <= pos
    ensures HarmlessCuts(b, i, n, pos, pieces)
    decreases |pieces|
  {
    if pieces != [] {
      CutsBehindBody(b, i, n, pos + |pieces[0]|, pieces[1..]);
    }
  }

  lemma BodyNeverComplete(c: Conn, pieces: seq<string>)
    requires Fits(c, Concat(pieces)) && c.req.check == CheckContent
    requires Incomplete(Feed(c, Concat(pieces)))
    ensures SameOutcome(RunFed(c, pieces), ProcessRead(Feed(c, Concat(pieces))))
    ensures ProcessRead(Feed(c, Concat(pieces))).code == NoRequest
  {
    var t := Concat(pieces);
    BodyScan(c, true);
    BodyScan(Feed(c, t), true);
    DrainFeed(c, t);
    DrainIdempotent(c);
    var e := ProcessRead(c).conn;
    DrainStart(Drain(c), e.startLine);
    RunIncomplete(e, pieces);
    assert Feed(e, t) == Feed(Drain(c), t).(startLine := e.startLine);
    DrainStart(Feed(Drain(c), t), e.startLine);
  }

  /** From the start of the body on, the reads agree with one read exactly if they are harmless. */
  lemma {:induction false} BodySplit(c: Conn, pieces: seq<string>)
    requires Fits(c, Concat(pieces)) && c.req.check == CheckContent && c.startLine == c.checkedIdx
    ensures var whole := Feed(c, Concat(pieces));
            SameOutcome(RunFed(c, pieces), ProcessRead(whole)) <==>
            ProcessRead(whole).code == NoRequest ||
            HarmlessCuts(whole.buf, c.checkedIdx, c.req.contentLength, c.readIdx, pieces)
    decreases |pieces|
  {
    hide SameOutcome, ProcessRead, Clean;
    var t := Concat(pieces);
    var whole := Feed(c, t);
    if Incomplete(whole) {
      BodyNeverComplete(c, pieces);
    } else if !Incomplete(c) {
      CompleteFeed(c, t);
      CutsBehindBody(whole.buf, c.checkedIdx, c.req.contentLength, c.readIdx, pieces);
    } else {
      assert forall k :: c.checkedIdx <= k < c.readIdx ==> whole.buf[k] == c.buf[k];
      if Stalled(c.buf, c.checkedIdx, c.readIdx) {
        StalledStep(c);
        FeedConcat(c, pieces[0], Concat(pieces[1..]));
        BodySplit(Feed(c, pieces[0]), pieces[1..]);
      } else {
        BodyMoved(c, pieces);
      }
    }
  }

  /** Once the scanner has moved into an incomplete body its position cannot come back. */
  lemma BodyMoved(c: Conn, pieces: seq<string>)
    requires Fits(c, Concat(pieces)) && c.req.check == CheckContent && c.startLine == c.checkedIdx
    requires Incomplete(c) && !Incomplete(Feed(c, Concat(pieces)))
    requires !Stalled(c.buf, c.checkedIdx, c.readIdx)
    ensures !SameOutcome(RunFed(c, pieces), ProcessRead(Feed(c, Concat(pieces))))
    ensures ProcessRead(Feed(c, Concat(pieces))).code != NoRequest
  {
    CompleteStep(Feed(c, Concat(pieces)));
    BodyScan(c, true);
    DrainStalled(c);
  }

  lemma StalledStep(c: Conn)
    requires Ready(c) && c.req.check == CheckContent && c.startLine == c.checkedIdx
    requires Incomplete(c) && Stalled(c.buf, c.checkedIdx, c.readIdx)
    ensures ProcessRead(c) == Result(c, NoRequest)
  {
    IncompleteStep(c);
    ParseLineMeaning(c);
    assert ProcessFrom(c, false) == Result(c, NoRequest);
  }

  /** Parsing the head leaves the bytes behind the scan position alone. */
  lemma {:induction false} HeadFrame(c: Conn)
    requires Ready(c) && c.req.check != CheckContent
    ensures var i := Head(c).0.checkedIdx; Head(c).0.buf[i..] == c.buf[i..]
    decreases c.readIdx - c.checkedIdx
  {
    ParseLineClean(c);
    ParseLineMeaning(c);
    var s := ParseLine(c);
    var i := Head(c).0.checkedIdx;
    if s.status == LineOk {
      EffectFrame(s.conn);
      PatchFrame(s.conn.buf, EffectOf(s.conn).stores, s.conn.startLine, s.conn.checkedIdx);
      var r := HandleLine(s.conn);
      assert s.conn.buf[s.conn.checkedIdx..] == c.buf[s.conn.checkedIdx..];
      assert r.conn.buf[s.conn.checkedIdx..] == s.conn.buf[s.conn.checkedIdx..];
      if r.code == NoRequest && r.conn.req.check != CheckContent {
        HeadFrame(r.conn);
        DropMore(r.conn.buf, c.buf, s.conn.checkedIdx, i);
      }
    }
  }

  lemma DropMore(a: seq<char>, b: seq<char>, k: nat, i: nat)
    requires k <= i <= |a| == |b| && a[k..] == b[k..]
    ensures a[i..] == b[i..]
  {
    assert a[i..] == a[k..][i - k..] && b[i..] == b[k..][i - k..];
  }

  lemma {:induction false} HeadSplit(c: Conn, pieces: seq<string>)
    requires Quiet(c) && Fits(c, Concat(pieces))
    ensures var whole := Feed(c, Concat(pieces));
            var w := ProcessRead(whole);
            var h := Head(whole);
            SameOutcome(Run(c, pieces), w) <==>
            w.code == NoRequest || h.1 != AtBody ||
            HarmlessCuts(h.0.buf, h.0.checkedIdx, h.0.req.contentLength, c.readIdx, pieces)
    decreases |pieces|
  {
    hide ProcessRead, Head, Clean;
    var whole := Feed(c, Concat(pieces));
    ProcessIsHead(whole);
    if pieces == [] {
      FeedNothing(c);
    } else {
      var x, t := pieces[0], Concat(pieces[1..]);
      var d := Feed(c, x);
      FeedConcat(c, x, t);
      HeadFeed(d, t);
      ProcessIsHead(d);
      if Head(whole).1 == AtBody {
        BodyIsAhead(c, Concat(pieces));
      }
      var e := Head(d).0;
      match Head(d).1
      case NeedMore =>
        HeadQuiet(d);
        ProcessIsHead(Feed(e, t));
        HeadSplit(e, pieces[1..]);
      case Done(code) =>
        assert e.buf[..e.checkedIdx] == Feed(e, t).buf[..e.checkedIdx];
      case AtBody =>
        BodySplit(e, pieces[1..]);
    }
  }

  // ---- Runs from a fresh connection ----

  lemma InitQuiet()
    ensures Quiet(Init())
  {
    ParseLineClean(Init());
  }

  lemma {:induction false} CutsLocal(b: seq<char>, b': seq<char>, i: nat, n: int, pos: nat, pieces: seq<string>)
    requires pos + |Concat(pieces)| <= |b| <= |b'|
    requires forall k :: i <= k < |b| ==> b[k] == b'[k]
    ensures HarmlessCuts(b, i, n, pos, pieces) <==> HarmlessCuts(b', i, n, pos, pieces)
    decreases |pieces|
  {
    if pieces != [] {
      CutsLocal(b, b', i, n, pos + |pieces[0]|, pieces[1..]);
    }
  }

  lemma {:induction false} ConcatPrefix(pieces: seq<string>, k: nat)
    requires k <= |pieces|
    ensures |Concat(pieces[..k])| <= |Concat(pieces)|
    decreases |pieces|
  {
    if k > 0 {
      assert pieces[..k][1..] == pieces[1..][..k - 1];
      ConcatPrefix(pieces[1..], k - 1);
    }
  }

  /** The end of the k-th read in the stream. */
  function CutPoint(pieces: seq<string>, k: nat): (p: nat)
    requires k <= |pieces|
    ensures p <= |Concat(pieces)|
  {
    ConcatPrefix(pieces, k);
    |Concat(pieces[..k])|
  }

  lemma {:induction false} HarmlessCutsMeaning(b: seq<char>, i: nat, n: int, pos: nat, pieces: seq<string>)
    requires pos + |Concat(pieces)| <= |b|
    ensures HarmlessCuts(b, i, n, pos, pieces) <==>
            forall k :: 0 <= k <= |pieces| && i <= pos + CutPoint(pieces, k) < i + n ==>
              Stalled(b, i, pos + CutPoint(pieces, k))
    decreases |pieces|
  {
    assert CutPoint(pieces, 0) == 0;
    if pieces != [] {
      HarmlessCutsMeaning(b, i, n, pos + |pieces[0]|, pieces[1..]);
      forall k | 0 < k <= |pieces|
        ensures CutPoint(pieces, k) == |pieces[0]| + CutPoint(pieces[1..], k - 1)
      {
        assert pieces[..k][1..] == pieces[1..][..k - 1];
      }
      assert forall k :: 0 <= k < |pieces| ==>
        CutPoint(pieces, k + 1) == |pieces[0]| + CutPoint(pieces[1..], k);
    }
  }

  /** The run over the reads agrees with one read of the whole stream if and only if the whole stream
      gives no outcome, or its head ends without a body, or no read ends inside the body at a place
      where the line scanner runs on over body bytes. */
  lemma SplitByHead(pieces: seq<string>)
    requires |Concat(pieces)| <= READ_BUFFER_SIZE
    ensures var stream := Concat(pieces);
            var whole := ProcessRead(Feed(Init(), stream));
            var (head, end) := Head(Feed(Init(), stream));
            var i, n := head.checkedIdx, head.req.contentLength;
            i <= |stream| &&
            (SameOutcome(Run(Init(), pieces), whole) <==>
             whole.code == NoRequest || end != AtBody || CutsHarmless(stream, i, n, pieces))
  {
    hide ProcessRead, Head, Clean, SameOutcome;
    var stream := Concat(pieces);
    var c := Feed(Init(), stream);
    InitQuiet();
    HeadSplit(Init(), pieces);
    HeadFrame(c);
    var head := Head(c).0;
    var i, n := head.checkedIdx, head.req.contentLength;
    forall k | i <= k < |stream| ensures stream[k] == head.buf[k] {
      assert head.buf[k] == head.buf[i..][k - i] == c.buf[i..][k - i] == c.buf[k];
    }
    CutsLocal(stream, head.buf, i, n, 0, pieces);
    HarmlessCutsMeaning(stream, i, n, 0, pieces);
  }

  /** No read ends inside the body [i, i + n) of the stream at a place where the line scanner runs on
      over body bytes. */
  ghost predicate CutsHarmless(stream: string, i: nat, n: int, pieces: seq<string>)
    requires i <= |stream| == |Concat(pieces)|
  {
    forall k :: 0 <= k <= |pieces| && i <= CutPoint(pieces, k) < i + n ==>
      Stalled(stream, i, CutPoint(pieces, k))
  }

  /** A bad line is final: no later bytes move the position or lead to an outcome. */
  lemma {:induction false} BadLineAbsorbs(c: Conn, pieces: seq<string>)
    requires Fits(c, Concat(pieces)) && c.req.check != CheckContent && ParseLine(c) == Scan(c, LineBad)
    ensures var r := Run(c, pieces);
            r.code == NoRequest && r.conn.checkedIdx == c.checkedIdx && r.conn.req == c.req
    decreases |pieces|
  {
    if pieces != [] {
      var d := Feed(c, pieces[0]);
      ScanFeed(c, pieces[0]);
      ParseLineClean(d);
      assert ProcessRead(d) == Result(d, NoRequest);
      BadLineAbsorbs(d, pieces[1..]);
    }
  }

  /** A body that arrives in two ordinary pieces: complete in one read, it is taken; in two reads, the
      scanner has moved on over the first piece and these bytes never complete the request. */
  lemma SplitBodyStarves(c: Conn, a: string, b: string)
    requires Fits(c, a + b) && c.req.check == CheckContent && c.startLine == c.checkedIdx == c.readIdx
    requires a != "" && (forall i :: 0 <= i < |a| ==> !IsEol(a[i]))
    requires b != "" && c.req.contentLength == |a| + |b|
    ensures ProcessRead(Feed(c, a + b)).code != NoRequest
    ensures var first := ProcessRead(Feed(c, a));
            first.code == NoRequest && Fits(first.conn, b) &&
            ProcessRead(Feed(first.conn, b)).code == NoRequest
  {
    hide Drain, ProcessRead, Clean;
    CompleteStep(Feed(c, a + b));
    var d := Feed(c, a);
    BodyScan(d, true);
    PlainDrains(d);
    BodyScan(Feed(ProcessFrom(d, true).conn, b), true);
    ReadIsFrom(d);
    ReadIsFrom(Feed(ProcessFrom(d, true).conn, b));
  }

  lemma ReadIsFrom(c: Conn)
    requires Ready(c)
    ensures ProcessRead(c) == ProcessFrom(c, true)
  {
  }

  /** Over bytes without CR and LF the scanner runs to the end. */
  lemma PlainDrains(c: Conn)
    requires Ready(c) && forall i :: c.checkedIdx <= i < c.readIdx ==> !IsEol(c.buf[i])
    ensures Drain(c).checkedIdx == c.readIdx
  {
    ParseLineMeaning(c);
    ParseLineClean(c);
  }
}
