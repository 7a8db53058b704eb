/** The request parser of `http_conn` as functions on the connection's fields. The parser is
    resumable and destructive: NULs and "judge.html" are stored into the buffer it is reading. */
module HttpRequest {
  import opened Wrappers
  import opened CStrings

  const READ_BUFFER_SIZE: nat := 2048

  datatype Method = GET | POST
  datatype CheckState = CheckRequestLine | CheckHeader | CheckContent
  datatype LineStatus = LineOk | LineBad | LineOpen

  /** `GetRequest` is the point where `process_read` hands over to `do_request`.
      `Undefined` stands for a step with undefined behaviour in C++: a null pointer passed to
      `strncasecmp` or a store outside the buffer. */
  datatype Code = NoRequest | GetRequest | BadRequest | Undefined

  /** What has been learnt about the request. Pointers into the read buffer are indices; `None` is
      NULL. */
  datatype Request = Request(
    check: CheckState, verb: Method, cgi: bool, url: Option<nat>, version: Option<nat>,
    host: Option<nat>, contentLength: int, linger: bool, body: Option<nat>)

  datatype Conn = Conn(buf: seq<char>, readIdx: nat, checkedIdx: nat, startLine: nat, req: Request)

  datatype Scan = Scan(conn: Conn, status: LineStatus)
  datatype Result = Result(conn: Conn, code: Code)

  ghost predicate Wf(c: Conn) {
    && |c.buf| == READ_BUFFER_SIZE
    && c.startLine <= c.checkedIdx <= c.readIdx <= READ_BUFFER_SIZE
  }

  predicate IsEol(ch: char) {
    ch == CR || ch == LF
  }

  /** No CR and no LF is left before the scan position. */
  ghost predicate Clean(c: Conn)
    requires Wf(c)
  {
    forall i :: 0 <= i < c.checkedIdx ==> !IsEol(c.buf[i])
  }

  ghost predicate Ready(c: Conn) {
    Wf(c) && Clean(c)
  }

  /** A complete line starts at `startLine` and ends, with its two NULs, right before `checkedIdx`. */
  ghost predicate LineReady(c: Conn) {
    && Ready(c)
    && c.startLine + 2 <= c.checkedIdx
    && c.buf[c.checkedIdx - 2] == NUL && c.buf[c.checkedIdx - 1] == NUL
  }

  function Init(): (c: Conn)
    ensures Ready(c)
  {
    Conn(seq(READ_BUFFER_SIZE, _ => NUL), 0, 0, 0,
         Request(CheckRequestLine, GET, false, None, None, None, 0, false, None))
  }

  /** `recv` delivers `t` at `readIdx`. */
  function Feed(c: Conn, t: string): (d: Conn)
    requires Ready(c) && c.readIdx + |t| <= READ_BUFFER_SIZE
    ensures Ready(d)
  {
    c.(buf := Overwrite(c.buf, c.readIdx, t), readIdx := c.readIdx + |t|)
  }

  // ---- The line scanner ----

  function ParseLine(c: Conn): (s: Scan)
    requires Wf(c)
    ensures Wf(s.conn)
    ensures s.conn == c.(buf := s.conn.buf, checkedIdx := s.conn.checkedIdx)
    decreases c.readIdx - c.checkedIdx
  {
    var i := c.checkedIdx;
    if i >= c.readIdx then Scan(c, LineOpen)
    else if c.buf[i] == CR then
      if i + 1 == c.readIdx then Scan(c, LineOpen)
      else if c.buf[i + 1] == LF then
        Scan(c.(buf := c.buf[i := NUL][i + 1 := NUL], checkedIdx := i + 2), LineOk)
      else Scan(c, LineBad)
    else if c.buf[i] == LF then
      if i > 1 && c.buf[i - 1] == CR then
        Scan(c.(buf := c.buf[i - 1 := NUL][i := NUL], checkedIdx := i + 1), LineOk)
      else Scan(c, LineBad)
    else ParseLine(c.(checkedIdx := i + 1))
  }

  /** First CR or LF in [i, r), or r. */
  function FirstEol(b: seq<char>, i: nat, r: nat): (e: nat)
    requires i <= r <= |b|
    ensures i <= e <= r
    ensures forall k :: i <= k < e ==> !IsEol(b[k])
    ensures e < r ==> IsEol(b[e])
    decreases r - i
  {
    if i == r || IsEol(b[i]) then i else FirstEol(b, i + 1, r)
  }

  /** The scanner's result in terms of the first end-of-line byte. */
  function ScanResult(c: Conn): Scan
    requires Wf(c)
  {
    var e := FirstEol(c.buf, c.checkedIdx, c.readIdx);
    if e + 1 < c.readIdx && c.buf[e] == CR && c.buf[e + 1] == LF then
      Scan(c.(buf := c.buf[e := NUL][e + 1 := NUL], checkedIdx := e + 2), LineOk)
    else if e == c.readIdx || (c.buf[e] == CR && e + 1 == c.readIdx) then
      Scan(c.(checkedIdx := e), LineOpen)
    else Scan(c.(checkedIdx := e), LineBad)
  }

  /** From a clean state the LF-after-CR repair branch is dead: a line is delivered exactly when the
      first end-of-line byte is a CR with an LF buffered behind it, and a scan that delivers no line
      moves only the position. */
  lemma {:induction false} ParseLineMeaning(c: Conn)
    requires Ready(c)
    ensures ParseLine(c) == ScanResult(c)
    decreases c.readIdx - c.checkedIdx
  {
    var i := c.checkedIdx;
    if i < c.readIdx && !IsEol(c.buf[i]) {
      ParseLineMeaning(c.(checkedIdx := i + 1));
    } else if i < c.readIdx && i > 1 {
      assert !IsEol(c.buf[i - 1]);
    }
  }

  /** Scanning keeps the buffer before the position free of CR and LF, and a delivered line is
      followed by its two NULs. */
  lemma ParseLineClean(c: Conn)
    requires Ready(c)
    ensures Ready(ParseLine(c).conn)
    ensures ParseLine(c).status == LineOk ==>
              LineReady(ParseLine(c).conn) && c.checkedIdx < ParseLine(c).conn.checkedIdx
    ensures c.checkedIdx <= ParseLine(c).conn.checkedIdx
  {
    ParseLineMeaning(c);
  }

  // ---- The handlers, on the characters of one line ----

  /** Bytes to be stored into the buffer. */
  datatype Store = Store(at: nat, bytes: string)

  /** What a handler does: the new request, its return code and its stores, in order. */
  datatype Effect = Effect(req: Request, code: Code, stores: seq<Store>)

  /** Every store lies in [lo, hi) and brings no CR and no LF. */
  ghost predicate StoresOk(stores: seq<Store>, lo: nat, hi: nat) {
    forall s :: s in stores ==> lo <= s.at && s.at + |s.bytes| <= hi && CleanBytes(s.bytes)
  }

  ghost predicate CleanBytes(bytes: string) {
    forall ch :: ch in bytes ==> !IsEol(ch)
  }

  function Patch(b: seq<char>, stores: seq<Store>): (r: seq<char>)
    requires StoresOk(stores, 0, |b|)
    ensures |r| == |b|
    decreases |stores|
  {
    if stores == [] then b
    else Patch(Overwrite(b, stores[0].at, stores[0].bytes), stores[1..])
  }

  /** The first of several stores is made first. */
  lemma PatchStep(b: seq<char>, stores: seq<Store>, at: nat, bytes: string, rest: seq<Store>)
    requires StoresOk(stores, 0, |b|) && stores == [Store(at, bytes)] + rest
    ensures StoresOk(rest, 0, |b|) && at + |bytes| <= |b|
    ensures Patch(b, stores) == Patch(Overwrite(b, at, bytes), rest)
  {
    var s := Store(at, bytes);
    assert s in stores && forall x :: x in rest ==> x in stores;
    assert stores[1..] == rest && stores[0] == s;
  }

  lemma PatchAtMostOne(b: seq<char>, stores: seq<Store>)
    requires StoresOk(stores, 0, |b|) && |stores| <= 1
    ensures stores == [] ==> Patch(b, stores) == b
    ensures stores != [] ==>
              stores[0].at + |stores[0].bytes| <= |b| &&
              Patch(b, stores) == Overwrite(b, stores[0].at, stores[0].bytes)
  {
    if stores != [] {
      assert stores[0] in stores && stores[1..] == [];
    }
  }

  function MethodOf(s: string): Option<Method> {
    if CaseEq(s, "GET") then Some(GET) else if CaseEq(s, "POST") then Some(POST) else None
  }

  /** Where the path starts in the request target. */
  datatype PathStart = At(offset: nat) | NoSlash | NullPointer

  /** Both scheme tests run one after the other, so a "http://" target without a slash passes a null
      pointer to the second one. */
  function PathOf(target: string): (p: PathStart)
    ensures p.At? ==> p.offset <= |target|
  {
    if CaseEqN(target, "http://", 7) then
      var k := 7 + FirstOf(target[7..], '/');
      if k == |target| then NullPointer else At(k)
    else if CaseEqN(target, "https://", 8) then
      var k := 8 + FirstOf(target[8..], '/');
      if k == |target| then NoSlash else At(k)
    else At(0)
  }

  /** Offsets in a line's text: first blank, start and end of the target, start of the version.
      An offset equal to the length means that the blank in question is missing. */
  datatype Offsets = Offsets(sp: nat, u: nat, w: nat, v: nat)

  function Split(t: string): (o: Offsets)
    ensures o.sp <= |t|
    ensures o.sp < |t| ==> o.sp < o.u <= o.w <= |t|
    ensures o.sp < |t| && o.w < |t| ==> o.w < o.v <= |t|
  {
    var sp := FirstBlank(t);
    if sp == |t| then Offsets(sp, sp, sp, sp)
    else
      var u := sp + 1 + BlankSpan(t[sp + 1..]);
      var w := u + FirstBlank(t[u..]);
      if w == |t| then Offsets(sp, u, w, w)
      else Offsets(sp, u, w, w + 1 + BlankSpan(t[w + 1..]))
  }

  const JUDGE: string := "judge.html\0"
  const NULS: string := "\0"

  /** The handler of a request line whose text is `t` and whose first byte has index `text`. The
      stores never feed back into the judgement, and they stay inside the text and the two NULs that
      follow it: "judge.html" with its NUL behind a "/" takes exactly the room of the separator, the
      8 version bytes and those two NULs. */
  function ParseRequestLine(q: Request, t: string, text: nat): (e: Effect)
    ensures StoresOk(e.stores, text, text + |t| + 2)
    ensures e.code != GetRequest
    ensures e.req.check == CheckHeader || e.req.check == q.check
    ensures e.req == q.(check := e.req.check, verb := e.req.verb, cgi := e.req.cgi,
                        url := e.req.url, version := e.req.version)
  {
    var o := Split(t);
    if o.sp == |t| then Effect(q.(url := None), BadRequest, [])
    else
      var m := MethodOf(t[..o.sp]);
      var f := if m.None? then Effect(q.(url := Some(text + o.sp + 1)), BadRequest, [])
               else AfterMethod(q.(verb := m.value, cgi := m.value == POST || q.cgi), t, text, o);
      f.(stores := [Store(text + o.sp, NULS)] + f.stores)
  }

  /** The part behind the method test. */
  function AfterMethod(q: Request, t: string, text: nat, o: Offsets): (e: Effect)
    requires o.u <= o.w <= |t| && (o.w < |t| ==> o.w < o.v <= |t|)
    ensures StoresOk(e.stores, text, text + |t| + 2)
    ensures e.code != GetRequest
    ensures e.req.check == CheckHeader || e.req.check == q.check
    ensures e.req == q.(check := e.req.check, url := e.req.url, version := e.req.version)
  {
    var q1 := q.(url := Some(text + o.u));
    if o.w == |t| then Effect(q1.(version := None), BadRequest, [])
    else
      var q2 := q1.(version := Some(text + o.v));
      var f := if !CaseEq(t[o.v..], "HTTP/1.1") then Effect(q2, BadRequest, [])
               else FinishRequestLine(q2, t[o.u..o.w], text + o.u);
      f.(stores := [Store(text + o.w, NULS)] + f.stores)
  }

  /** The part behind the version test: `target` is the C string at index `u`. */
  function FinishRequestLine(q: Request, target: string, u: nat): (e: Effect)
    ensures StoresOk(e.stores, u, u + |target| + 11)
    ensures e.code != GetRequest
    ensures e.req == q.(check := e.req.check, url := e.req.url)
    ensures e.req.check == CheckHeader || e.req.check == q.check
  {
    match PathOf(target)
    case NullPointer => Effect(q.(url := None), Undefined, [])
    case NoSlash => Effect(q.(url := None), BadRequest, [])
    case At(k) =>
      var q1 := q.(url := Some(u + k));
      if k == |target| || target[k] != '/' then Effect(q1, BadRequest, [])
      else Effect(q1.(check := CheckHeader), NoRequest,
                  if k + 1 == |target| then [Store(u + |target|, JUDGE)] else [])
  }

  /** The handler of a header line. `strncasecmp(text, "Host", 5)` also compares the NUL, so it
      accepts only a line that consists of "Host"; `hostSpan` is the blank span right behind it. */
  function ParseHeaders(q: Request, t: string, text: nat, hostSpan: nat): (e: Effect)
    ensures e.stores == []
    ensures e.code == NoRequest || (e.code == GetRequest && e.req == q)
    ensures e.req == q.(check := e.req.check, linger := e.req.linger,
                        contentLength := e.req.contentLength, host := e.req.host)
  {
    if t == "" then
      if q.contentLength != 0 then Effect(q.(check := CheckContent), NoRequest, [])
      else Effect(q, GetRequest, [])
    else if CaseEqN(t, "Connection:", 11) then
      var v := t[11..];
      Effect(if CaseEq(v[BlankSpan(v)..], "keep-alive") then q.(linger := true) else q, NoRequest, [])
    else if CaseEqN(t, "Content-length:", 15) then
      var v := t[15..];
      Effect(q.(contentLength := Atol(v[BlankSpan(v)..])), NoRequest, [])
    else if CaseEqN(t, "Host", 5) then
      Effect(q.(host := Some(text + 5 + hostSpan)), NoRequest, [])
    else Effect(q, NoRequest, [])
  }

  function HostSpan(b: seq<char>, t: string, text: nat): nat {
    if CaseEqN(t, "Host", 5) && text + 5 <= |b| then BlankSpan(CStr(b, text + 5)) else 0
  }

  /** The body check. Running off the end of the function when the body is incomplete is taken as
      NO_REQUEST. */
  function ParseContent(q: Request, text: nat, checkedIdx: nat, readIdx: nat): (e: Effect)
    ensures StoresOk(e.stores, 0, READ_BUFFER_SIZE)
    ensures e.code == NoRequest <==> readIdx < q.contentLength + checkedIdx
    ensures e.code == NoRequest ==> e == Effect(q, NoRequest, [])
    ensures e.code != BadRequest && e.req == q.(body := e.req.body)
  {
    var end := text + q.contentLength;
    if readIdx < q.contentLength + checkedIdx then Effect(q, NoRequest, [])
    else if !(0 <= end < READ_BUFFER_SIZE) then Effect(q, Undefined, [])
    else Effect(q.(body := Some(text)), GetRequest, [Store(end, NULS)])
  }

  // ---- process_read ----

  /** The text of the current line. */
  function Line(c: Conn): string
    requires Wf(c)
  {
    CStr(c.buf, c.startLine)
  }

  function EffectOf(c: Conn): (e: Effect)
    requires Wf(c)
  {
    match c.req.check
    case CheckRequestLine => ParseRequestLine(c.req, Line(c), c.startLine)
    case CheckHeader =>
      ParseHeaders(c.req, Line(c), c.startLine, HostSpan(c.buf, Line(c), c.startLine))
    case CheckContent => ParseContent(c.req, c.startLine, c.checkedIdx, c.readIdx)
  }

  /** The frame of a handler: while lines are handled every store lands inside the line just
      consumed, never at or past `checkedIdx`; and no store brings a CR or LF. */
  lemma EffectFrame(c: Conn)
    requires Ready(c) && (c.req.check != CheckContent ==> LineReady(c))
    ensures StoresOk(EffectOf(c).stores, 0, |c.buf|)
    ensures c.req.check != CheckContent ==>
              StoresOk(EffectOf(c).stores, c.startLine, c.checkedIdx)
  {
    if c.req.check != CheckContent {
      assert StrEnd(c.buf, c.startLine) <= c.checkedIdx - 2;
    }
  }

  /** Stores change nothing outside their range and keep a region free of CR and LF. */
  lemma {:induction false} PatchFrame(b: seq<char>, stores: seq<Store>, lo: nat, hi: nat)
    requires lo <= hi <= |b| && StoresOk(stores, lo, hi)
    ensures StoresOk(stores, 0, |b|)
    ensures Patch(b, stores)[..lo] == b[..lo] && Patch(b, stores)[hi..] == b[hi..]
    decreases |stores|
  {
    if stores != [] {
      var b1 := Overwrite(b, stores[0].at, stores[0].bytes);
      PatchFrame(b1, stores[1..], lo, hi);
      assert b1[..lo] == b[..lo] && b1[hi..] == b[hi..];
    }
  }

  lemma {:induction false} PatchClean(b: seq<char>, stores: seq<Store>, k: nat)
    requires k <= |b| && StoresOk(stores, 0, |b|)
    requires forall i :: 0 <= i < k ==> !IsEol(b[i])
    ensures forall i :: 0 <= i < k ==> !IsEol(Patch(b, stores)[i])
    decreases |stores|
  {
    if stores != [] {
      PatchClean(Overwrite(b, stores[0].at, stores[0].bytes), stores[1..], k);
    }
  }

  /** One turn of the `switch` in `process_read`. */
  function HandleLine(c: Conn): (r: Result)
    requires Ready(c) && (c.req.check != CheckContent ==> LineReady(c))
    ensures Ready(r.conn)
    ensures r.conn.checkedIdx == r.conn.startLine == c.checkedIdx && r.conn.readIdx == c.readIdx
  {
    EffectFrame(c);
    var e := EffectOf(c);
    PatchClean(c.buf, e.stores, c.checkedIdx);
    Result(c.(buf := Patch(c.buf, e.stores), startLine := c.checkedIdx, req := e.req), e.code)
  }

  /** The loop condition of `process_read`; `ok` says that `line_status` is LINE_OK. */
  function NextLine(c: Conn, ok: bool): (s: Scan)
    requires Ready(c)
    ensures Ready(s.conn) && s.conn.readIdx == c.readIdx && s.conn.req == c.req
    ensures c.checkedIdx <= s.conn.checkedIdx
    ensures s.status == LineOk && !(c.req.check == CheckContent && ok) ==>
              c.checkedIdx < s.conn.checkedIdx && LineReady(s.conn)
  {
    ParseLineClean(c);
    if c.req.check == CheckContent && ok then Scan(c, LineOk) else ParseLine(c)
  }

  /** The loop of `process_read`. */
  function ProcessFrom(c: Conn, ok: bool): (r: Result)
    requires Ready(c)
    ensures Ready(r.conn) && r.conn.readIdx == c.readIdx && c.checkedIdx <= r.conn.checkedIdx
    decreases c.readIdx - c.checkedIdx, ok
  {
    var s := NextLine(c, ok);
    if s.status != LineOk then Result(s.conn, NoRequest)
    else
      var r := HandleLine(s.conn);
      if r.code != NoRequest then r else ProcessFrom(r.conn, c.req.check != CheckContent)
  }

  function ProcessRead(c: Conn): (r: Result)
    requires Ready(c)
    ensures Ready(r.conn) && r.conn.readIdx == c.readIdx && c.checkedIdx <= r.conn.checkedIdx
  {
    ProcessFrom(c, true)
  }
}
