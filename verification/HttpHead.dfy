/** What a whole request head means: which byte streams have one, where it ends, and what the parser
    learns from its lines. */
module HttpHead {
  import opened Wrappers
  import opened CStrings
  import opened HttpRequest
  import opened HttpSplit
  import opened HttpPure
  import opened HttpHeaders
  import G = HttpGrammar

  ghost predicate EolFree(raw: string) {
    forall i :: 0 <= i < |raw| ==> !IsEol(raw[i])
  }

  /** The lines with their CR LFs. */
  function Join(lines: seq<string>): string {
    if lines == [] then "" else lines[0] + "\r\n" + Join(lines[1..])
  }

  /** What a handler sees of a line: the characters before the first NUL. */
  function Text(raw: string): string {
    CStr(raw + NULS + NULS, 0)
  }

  ghost predicate IsAccepted(t: string) {
    exists p, path :: G.IsRequestLine(t, p) && G.IsTarget(p.target, path)
  }

  /** The first `i` bytes of `s` are a head: a request line of the grammar, lines with some text, and a
      first line without. */
  ghost predicate IsHead(s: string, i: nat, lines: seq<string>) {
    && i <= |s| && s[..i] == Join(lines) && |lines| >= 2
    && (forall k :: 0 <= k < |lines| ==> EolFree(lines[k]))
    && IsAccepted(Text(lines[0]))
    && (forall k :: 0 < k < |lines| ==> (Text(lines[k]) == "" <==> k == |lines| - 1))
  }

  // ---- Line by line ----

  /** One whole line of the stream. */
  lemma PureLine(s: string, i: nat, raw: string, q: Request)
    requires i + |raw| + 2 <= |s| && s[i..i + |raw| + 2] == raw + "\r\n" && EolFree(raw)
    ensures var f := LineEffect(q, raw, i); var e := i + |raw|;
            PureHead(s, i, q) ==
            if f.code != NoRequest then (f.req, e + 2, Done(f.code))
            else if f.req.check == CheckContent then (f.req, e + 2, AtBody)
            else PureHead(s, e + 2, f.req)
  {
    hide LineEffect, FirstEol;
    var e := i + |raw|;
    assert forall k :: i <= k < e + 2 ==> s[k] == s[i..e + 2][k - i];
    FirstEolIs(s, i, |s|, e);
    assert s[i..e] == raw;
  }

  lemma FirstLine(s: string, i: nat, lines: seq<string>)
    requires lines != [] && i + |Join(lines)| <= |s| && s[i..i + |Join(lines)|] == Join(lines)
    ensures var j := i + |lines[0]| + 2;
            && |Join(lines)| == |lines[0]| + 2 + |Join(lines[1..])|
            && s[i..j] == lines[0] + "\r\n"
            && s[j..j + |Join(lines[1..])|] == Join(lines[1..])
  {
    TwoSlices(s, i, lines[0] + "\r\n", Join(lines[1..]));
  }

  lemma TwoSlices(s: string, i: nat, a: string, b: string)
    requires i + |a + b| <= |s| && s[i..i + |a + b|] == a + b
    ensures s[i..i + |a|] == a && s[i + |a|..i + |a| + |b|] == b
  {
    var n := |a + b|;
    assert s[i..i + |a|] == s[i..i + n][..|a|] && s[i + |a|..i + n] == s[i..i + n][|a|..];
  }

  /** What the header lines, the first of which starts at `at`, make of a request. */
  function AfterFields(q: Request, lines: seq<string>, at: nat): Request
    decreases |lines|
  {
    if lines == [] then q else AfterFields(LineEffect(q, lines[0], at).req, lines[1..], at + |lines[0]| + 2)
  }

  /** A header line with some text leads on to the next line. */
  lemma FieldEffect(q: Request, raw: string, at: nat)
    requires q.check == CheckHeader
    ensures var e := LineEffect(q, raw, at);
            if Text(raw) != "" then e.code == NoRequest && e.req.check == CheckHeader
            else if q.contentLength == 0 then e == Effect(q, GetRequest, [])
            else e == Effect(q.(check := CheckContent), NoRequest, [])
  {
    hide ParseHeaders, HostSpan, CStr;
    var line := raw + NULS + NULS;
    BlankLineExactly(q, Text(raw), at, HostSpan(line, Text(raw), 0));
  }

  lemma {:induction false} FieldLines(s: string, i: nat, q: Request, lines: seq<string>)
    requires q.check == CheckHeader
    requires i + |Join(lines)| <= |s| && s[i..i + |Join(lines)|] == Join(lines)
    requires forall k :: 0 <= k < |lines| ==> EolFree(lines[k]) && Text(lines[k]) != ""
    ensures AfterFields(q, lines, i).check == CheckHeader
    ensures PureHead(s, i, q) == PureHead(s, i + |Join(lines)|, AfterFields(q, lines, i))
    decreases |lines|
  {
    hide PureHead, LineEffect, EolFree, Text;
    if lines != [] {
      FirstLine(s, i, lines);
      PureLine(s, i, lines[0], q);
      FieldEffect(q, lines[0], i);
      var j := i + |lines[0]| + 2;
      FieldLines(s, j, LineEffect(q, lines[0], i).req, lines[1..]);
    }
  }

  /** What the handlers make of the header lines of a head. */
  function HeadRequest(lines: seq<string>): Request
    requires |lines| >= 2
  {
    var q := LineEffect(Init().req, lines[0], 0).req;
    AfterFields(q, lines[1..|lines| - 1], |lines[0]| + 2)
  }

  lemma {:induction false} JoinConcat(a: seq<string>, b: seq<string>)
    ensures Join(a + b) == Join(a) + Join(b)
    decreases |a|
  {
    if a == [] {
      assert a + b == b;
    } else {
      JoinConcat(a[1..], b);
      assert (a + b)[1..] == a[1..] + b;
      assert a[0] + "\r\n" + (Join(a[1..]) + Join(b)) == (a[0] + "\r\n" + Join(a[1..])) + Join(b);
    }
  }

  lemma RequestLineEffect(raw: string)
    ensures var e := LineEffect(Init().req, raw, 0);
            && e.code != GetRequest && e.req.check != CheckContent
            && (e.code == NoRequest <==> IsAccepted(Text(raw)))
            && (e.code == NoRequest ==> e.req.check == CheckHeader)
  {
    hide ParseRequestLine, CStr, G.IsTarget, G.IsRequestLine;
    var q := Init().req;
    G.RequestLineGrammar(q, Text(raw), 0);
    if ParseRequestLine(q, Text(raw), 0).code == NoRequest {
      var p, path :| G.IsRequestLine(Text(raw), p) && G.IsTarget(p.target, path);
      G.RequestLineAccepts(q, Text(raw), 0, p, path);
    }
  }

  ghost predicate EndsHead(end: HeadEnd) {
    end == AtBody || end == Done(GetRequest)
  }

  lemma HeadSlices(s: string, i: nat, lines: seq<string>)
    requires i <= |s| && s[..i] == Join(lines) && |lines| >= 2
    ensures var n := |lines| - 1; var fields := lines[1..n];
            var j := |lines[0]| + 2; var k := j + |Join(fields)|;
            && i == k + |lines[n]| + 2 && s[0..j] == lines[0] + "\r\n"
            && s[j..k] == Join(fields) && s[k..i] == lines[n] + "\r\n"
  {
    var n := |lines| - 1;
    var fields, j := lines[1..n], |lines[0]| + 2;
    var k := j + |Join(fields)|;
    assert s[0..i] == Join(lines);
    FirstLine(s, 0, lines);
    assert lines[1..] == fields + [lines[n]];
    JoinConcat(fields, [lines[n]]);
    assert Join([lines[n]]) == lines[n] + "\r\n" by { assert [lines[n]][1..] == []; }
    assert s[j..i] == Join(fields) + (lines[n] + "\r\n");
    assert s[j..k] == s[j..i][..|Join(fields)|] && s[k..i] == s[j..i][|Join(fields)|..];
  }

  /** A head is parsed to its end, and the body follows exactly if a length was announced. */
  lemma HeadReached(s: string, i: nat, lines: seq<string>)
    requires IsHead(s, i, lines)
    ensures var q := HeadRequest(lines);
            PureHead(s, 0, Init().req) ==
            if q.contentLength == 0 then (q, i, Done(GetRequest)) else (q.(check := CheckContent), i, AtBody)
  {
    hide PureHead, LineEffect, EolFree, Text, IsAccepted, AfterFields, Join;
    var n := |lines| - 1;
    var fields, q := lines[1..n], LineEffect(Init().req, lines[0], 0).req;
    var j := |lines[0]| + 2;
    var k := j + |Join(fields)|;
    HeadSlices(s, i, lines);
    PureLine(s, 0, lines[0], Init().req);
    RequestLineEffect(lines[0]);
    FieldLines(s, j, q, fields);
    PureLine(s, k, lines[n], AfterFields(q, fields, j));
    FieldEffect(AfterFields(q, fields, j), lines[n], k);
  }

  /** The header lines up to the end of a head. */
  lemma {:induction false} TailFound(s: string, i: nat, q: Request) returns (lines: seq<string>)
    requires i <= |s| && q.check == CheckHeader && EndsHead(PureHead(s, i, q).2)
    ensures var j := PureHead(s, i, q).1;
            && i <= j <= |s| && s[i..j] == Join(lines) && lines != []
            && (forall k :: 0 <= k < |lines| ==> EolFree(lines[k]))
            && (forall k :: 0 <= k < |lines| ==> (Text(lines[k]) == "" <==> k == |lines| - 1))
    decreases |s| - i
  {
    hide LineEffect, FirstEol, Text, EolFree, Join;
    var e := FirstEol(s, i, |s|);
    var raw := s[i..e];
    FieldEffect(q, raw, i);
    if Text(raw) == "" {
      lines := [raw] + [];
      LineBefore(s, i, e, e + 2, []);
    } else {
      var more := TailFound(s, e + 2, LineEffect(q, raw, i).req);
      lines := [raw] + more;
      LineBefore(s, i, e, PureHead(s, i, q).1, more);
    }
  }

  /** A complete line of the stream in front of others. */
  lemma LineBefore(s: string, i: nat, e: nat, j: nat, more: seq<string>)
    requires i <= |s| && e == FirstEol(s, i, |s|) && e + 2 <= j <= |s| && s[e] == CR && s[e + 1] == LF
    requires if more == [] then j == e + 2 else s[e + 2..j] == Join(more)
    ensures EolFree(s[i..e]) && s[i..j] == Join([s[i..e]] + more)
  {
    hide FirstEol;
    var lines := [s[i..e]] + more;
    assert lines[1..] == more;
    assert s[i..e + 2] == s[i..e] + "\r\n";
    assert s[i..j] == s[i..e + 2] + s[e + 2..j];
  }

  /** Wherever the parser leaves the head, a head ends. */
  lemma HeadFound(s: string) returns (lines: seq<string>)
    requires EndsHead(PureHead(s, 0, Init().req).2)
    ensures IsHead(s, PureHead(s, 0, Init().req).1, lines)
  {
    hide LineEffect, FirstEol, Text, IsAccepted, EolFree, Join;
    var e := FirstEol(s, 0, |s|);
    var raw := s[0..e];
    RequestLineEffect(raw);
    var more := TailFound(s, e + 2, LineEffect(Init().req, raw, 0).req);
    lines := [raw] + more;
    var j := PureHead(s, 0, Init().req).1;
    LineBefore(s, 0, e, j, more);
    assert s[..j] == s[0..j];
  }

  // ---- What the header lines say ----

  ghost predicate KeepAlive(raw: string) {
    exists v :: HasField(Text(raw), CONNECTION, v) && CaseEq(v, "keep-alive")
  }

  ghost predicate Announces(raw: string, v: string) {
    HasField(Text(raw), CONTENT_LENGTH, v)
  }

  /** One header line with some text. */
  lemma FieldMeaning(q: Request, raw: string, at: nat)
    requires q.check == CheckHeader && Text(raw) != ""
    ensures var r := LineEffect(q, raw, at).req;
            && r == q.(linger := r.linger, contentLength := r.contentLength, host := r.host)
            && (r.linger <==> q.linger || KeepAlive(raw))
            && (forall v :: Announces(raw, v) ==> r.contentLength == Atol(v))
            && ((forall v :: !Announces(raw, v)) ==> r.contentLength == q.contentLength)
  {
    hide ParseHeaders, HostSpan, CStr, HasField, CaseEq, Atol;
    var t := Text(raw);
    var span := HostSpan(raw + NULS + NULS, t, 0);
    BlankLineExactly(q, t, at, span);
    LingerExactly(q, t, at, span);
    if forall v :: !Announces(raw, v) {
      forall w ensures !HasField(t, CONTENT_LENGTH, w) { assert !Announces(raw, w); }
      LengthExactly(q, t, at, span, "");
    }
    forall v | Announces(raw, v) ensures ParseHeaders(q, t, at, span).req.contentLength == Atol(v) {
      LengthExactly(q, t, at, span, v);
    }
  }

  ghost predicate WithText(lines: seq<string>) {
    forall k :: 0 <= k < |lines| ==> Text(lines[k]) != ""
  }

  /** The flag is raised exactly by a line that says so, and only these fields change at all. */
  lemma {:induction false} FieldsLinger(q: Request, lines: seq<string>, at: nat)
    requires q.check == CheckHeader && WithText(lines)
    ensures var r := AfterFields(q, lines, at);
            && r == q.(linger := r.linger, contentLength := r.contentLength, host := r.host)
            && (r.linger <==> q.linger || exists k :: 0 <= k < |lines| && KeepAlive(lines[k]))
    decreases |lines|
  {
    hide LineEffect, Text, KeepAlive, Announces;
    if lines != [] {
      FieldMeaning(q, lines[0], at);
      FieldsLinger(LineEffect(q, lines[0], at).req, lines[1..], at + |lines[0]| + 2);
      assert forall k :: 0 < k < |lines| ==> lines[k] == lines[1..][k - 1];
    }
  }

  /** Without an announced length the length stays. */
  lemma {:induction false} FieldsSilent(q: Request, lines: seq<string>, at: nat)
    requires q.check == CheckHeader && WithText(lines)
    requires forall k, v :: 0 <= k < |lines| ==> !Announces(lines[k], v)
    ensures AfterFields(q, lines, at).contentLength == q.contentLength
    decreases |lines|
  {
    hide LineEffect, Text, KeepAlive, Announces;
    if lines != [] {
      FieldMeaning(q, lines[0], at);
      assert forall v :: !Announces(lines[0], v);
      forall k, v | 0 <= k < |lines[1..]| ensures !Announces(lines[1..][k], v) {
        assert lines[1..][k] == lines[k + 1];
      }
      FieldsSilent(LineEffect(q, lines[0], at).req, lines[1..], at + |lines[0]| + 2);
    }
  }

  /** The last announced length counts. */
  lemma {:induction false} FieldsLength(q: Request, lines: seq<string>, at: nat, k: nat, v: string)
    requires q.check == CheckHeader && WithText(lines)
    requires k < |lines| && Announces(lines[k], v)
    requires forall j, w :: k < j < |lines| ==> !Announces(lines[j], w)
    ensures AfterFields(q, lines, at).contentLength == Atol(v)
    decreases |lines|
  {
    hide LineEffect, Text, KeepAlive, Announces, Atol;
    FieldMeaning(q, lines[0], at);
    var r := LineEffect(q, lines[0], at).req;
    var rest := lines[1..];
    forall j, w | k - 1 < j < |rest| && 0 <= j ensures !Announces(rest[j], w) {
      assert rest[j] == lines[j + 1];
    }
    if k == 0 {
      FieldsSilent(r, rest, at + |lines[0]| + 2);
    } else {
      assert rest[k - 1] == lines[k];
      FieldsLength(r, rest, at + |lines[0]| + 2, k - 1, v);
    }
  }

  // ---- Where the head ends ----

  /** The index behind the first CR LF at or behind `i`. */
  function LineEnd(s: string, i: nat): (k: nat)
    requires i <= |s|
    ensures i <= k <= |s|
    decreases |s| - i
  {
    if i + 2 > |s| then |s| else if s[i..i + 2] == "\r\n" then i + 2 else LineEnd(s, i + 1)
  }

  /** The index behind the first CR LF CR LF at or behind `i`. */
  function HeadersEnd(s: string, i: nat): (k: nat)
    requires i <= |s|
    ensures i <= k <= |s|
    decreases |s| - i
  {
    if i + 4 > |s| then |s| else if s[i..i + 4] == "\r\n\r\n" then i + 4 else HeadersEnd(s, i + 1)
  }

  lemma {:induction false} LineEndIs(s: string, i: nat, k: nat)
    requires i <= k && k + 2 <= |s| && s[k] == CR && s[k + 1] == LF
    requires forall j :: i <= j < k ==> s[j] != CR
    ensures LineEnd(s, i) == k + 2
    decreases k - i
  {
    if i < k {
      assert s[i..i + 2][0] != CR;
      LineEndIs(s, i + 1, k);
    }
  }

  lemma {:induction false} HeadersSkip(s: string, i: nat, k: nat)
    requires i <= k && k + 2 <= |s| && forall j :: i <= j < k ==> s[j] != CR || s[j + 2] != CR
    ensures HeadersEnd(s, i) == HeadersEnd(s, k)
    decreases k - i
  {
    if i < k {
      assert i + 4 <= |s| ==> s[i..i + 4][0] == s[i] && s[i..i + 4][2] == s[i + 2];
      HeadersSkip(s, i + 1, k);
    }
  }

  /** A line with another line behind it. */
  lemma SkipLine(s: string, i: nat, raw: string)
    requires i + |raw| + 4 <= |s| && s[i..i + |raw| + 2] == raw + "\r\n" && CR !in raw
    requires s[i + |raw| + 2] != CR
    ensures HeadersEnd(s, i) == HeadersEnd(s, i + |raw| + 2)
  {
    var k := i + |raw| + 2;
    forall j | i <= j < k ensures s[j] == CR <==> j == k - 2 {
      assert s[j] == s[i..k][j - i];
    }
    HeadersSkip(s, i, k);
  }

  /** The last line, with the blank line behind it. */
  lemma LastLine(s: string, i: nat, raw: string)
    requires i + |raw| + 4 <= |s| && s[i..i + |raw| + 4] == raw + "\r\n\r\n" && CR !in raw
    ensures HeadersEnd(s, i) == i + |raw| + 4
  {
    var k := i + |raw|;
    forall j | i <= j < k ensures s[j] != CR {
      assert s[j] == s[i..k + 4][j - i];
    }
    assert s[k..k + 4] == s[i..k + 4][|raw|..];
    HeadersSkip(s, i, k);
  }

  lemma {:induction false} BlankLineEnds(s: string, i: nat, lines: seq<string>)
    requires |lines| >= 2 && i + |Join(lines)| <= |s| && s[i..i + |Join(lines)|] == Join(lines)
    requires forall k :: 0 <= k < |lines| ==> EolFree(lines[k])
    requires forall k :: 0 < k < |lines| ==> (lines[k] == "" <==> k == |lines| - 1)
    ensures HeadersEnd(s, i) == i + |Join(lines)|
    decreases |lines|
  {
    hide HeadersEnd;
    FirstLine(s, i, lines);
    var j := i + |lines[0]| + 2;
    FirstLine(s, j, lines[1..]);
    assert CR !in lines[0];
    if |lines| == 2 {
      assert lines[1..][1..] == [] && lines[1..][0] == "";
      assert s[i..j + 2] == s[i..j] + s[j..j + 2];
      LastLine(s, i, lines[0]);
    } else {
      assert s[j] == s[j..j + |lines[1]| + 2][0] == lines[1][0];
      SkipLine(s, i, lines[0]);
      BlankLineEnds(s, j, lines[1..]);
    }
  }

  lemma TextIsLine(raw: string)
    requires NUL !in raw
    ensures Text(raw) == raw
  {
    hide StrEnd;
    var line := raw + NULS + NULS;
    assert line[|raw|] == NUL;
    StrEndIs(line, 0, |raw|);
  }

  // ---- The theorems ----

  /** The parser leaves the head of a stream exactly at the end of a head, for every stream. */
  lemma HeadExactly(s: string, i: nat)
    ensures var h := PureHead(s, 0, Init().req);
            EndsHead(h.2) && h.1 == i <==> exists lines :: IsHead(s, i, lines)
  {
    hide PureHead, IsHead, HeadRequest;
    if EndsHead(PureHead(s, 0, Init().req).2) {
      var lines := HeadFound(s);
    }
    forall lines | IsHead(s, i, lines)
      ensures EndsHead(PureHead(s, 0, Init().req).2) && PureHead(s, 0, Init().req).1 == i
    {
      HeadReached(s, i, lines);
    }
  }

  /** What the parser has learnt at the end of a head: the method, the url and the version from the
      request line, the flag from the lines that ask for it. */
  lemma HeadMeaning(s: string, i: nat, lines: seq<string>, p: G.Parts, path: string)
    requires IsHead(s, i, lines) && G.IsRequestLine(Text(lines[0]), p) && G.IsTarget(p.target, path)
    ensures var (q, j, end) := PureHead(s, 0, Init().req);
            && j == i && end == (if q.contentLength != 0 then AtBody else Done(GetRequest))
            && q.verb == (if CaseEq(p.name, "GET") then GET else POST) && (q.cgi <==> CaseEq(p.name, "POST"))
            && q.url == Some(G.UrlOffset(p, path)) && q.version == Some(G.OffsetsOf(p).v) && q.body == None
            && (q.linger <==> exists k :: 0 < k < |lines| - 1 && KeepAlive(lines[k]))
  {
    hide PureHead, LineEffect, KeepAlive, Text, G.IsTarget, G.IsRequestLine;
    HeadReached(s, i, lines);
    RequestLineEffect(lines[0]);
    RequestLineLearns(lines[0], p, path);
    var fields := lines[1..|lines| - 1];
    assert forall k :: 0 <= k < |fields| ==> fields[k] == lines[k + 1];
    FieldsLinger(LineEffect(Init().req, lines[0], 0).req, fields, |lines[0]| + 2);
    if k :| 0 < k < |lines| - 1 && KeepAlive(lines[k]) {
      assert fields[k - 1] == lines[k];
    }
  }

  lemma RequestLineLearns(raw: string, p: G.Parts, path: string)
    requires G.IsRequestLine(Text(raw), p) && G.IsTarget(p.target, path)
    ensures G.UrlOffset(p, path) >= 0
    ensures LineEffect(Init().req, raw, 0).req ==
            Init().req.(check := CheckHeader, verb := if CaseEq(p.name, "GET") then GET else POST,
                        cgi := CaseEq(p.name, "POST"), url := Some(G.UrlOffset(p, path)),
                        version := Some(G.OffsetsOf(p).v))
  {
    hide ParseRequestLine, CStr, G.IsTarget, G.IsRequestLine, G.UrlOffset, G.OffsetsOf, CaseEq;
    G.RequestLineAccepts(Init().req, Text(raw), 0, p, path);
  }

  /** A complete first line that is not accepted ends the request: with BAD_REQUEST, or with the null
      pointer for an "http://" target without a slash behind the authority. */
  lemma FirstLineRejected(s: string, raw: string)
    requires |raw| + 2 <= |s| && s[0..|raw| + 2] == raw + "\r\n" && EolFree(raw) && !IsAccepted(Text(raw))
    ensures var (q, i, end) := PureHead(s, 0, Init().req);
            && i == |raw| + 2 && q.check == CheckRequestLine
            && end == Done(if HasNullTarget(Text(raw)) then Undefined else BadRequest)
  {
    hide ParseRequestLine, CStr, G.IsRequestLine, G.IsTarget, EolFree, CaseEq;
    var q := Init().req;
    PureLine(s, 0, raw, q);
    RequestLineEffect(raw);
    G.RejectedStays(q, Text(raw), 0);
    G.NullPointerExactly(q, Text(raw), 0);
  }

  ghost predicate HasNullTarget(t: string) {
    exists p, scheme, auth ::
      G.IsRequestLine(t, p) && CaseEq(scheme, "http://") && G.IsAbsolute(p.target, scheme, auth, "")
  }

  /** The announced length at the end of a head is that of the last line that announces one, and zero
      if there is none. */
  lemma HeadLength(s: string, i: nat, lines: seq<string>, k: nat, v: string)
    requires IsHead(s, i, lines) && k < |lines| - 1
    requires k == 0 || Announces(lines[k], v)
    requires forall j, w :: k < j < |lines| - 1 ==> !Announces(lines[j], w)
    ensures PureHead(s, 0, Init().req).0.contentLength == if k == 0 then 0 else Atol(v)
  {
    hide PureHead, LineEffect, Announces, Text, Atol;
    HeadReached(s, i, lines);
    RequestLineEffect(lines[0]);
    var q, at, fields := LineEffect(Init().req, lines[0], 0).req, |lines[0]| + 2, lines[1..|lines| - 1];
    assert forall j :: 0 <= j < |fields| ==> fields[j] == lines[j + 1];
    if k == 0 {
      FieldsSilent(q, fields, at);
      RequestLineKeepsLength(lines[0]);
    } else {
      assert fields[k - 1] == lines[k];
      FieldsLength(q, fields, at, k - 1, v);
    }
  }

  lemma RequestLineKeepsLength(raw: string)
    ensures LineEffect(Init().req, raw, 0).req.contentLength == 0
  {
  }

  /** In a stream without NULs the head ends with the first CR LF CR LF. */
  lemma HeadEndsAtBlankLine(s: string)
    requires NUL !in s
    ensures var (q, i, end) := PureHead(s, 0, Init().req);
            EndsHead(end) ==> 4 <= i == HeadersEnd(s, 0) <= |s| && s[i - 4..i] == "\r\n\r\n"
  {
    hide PureHead, HeadersEnd, Text, IsAccepted;
    var (q, i, end) := PureHead(s, 0, Init().req);
    if EndsHead(end) {
      var lines := HeadFound(s);
      var n := |lines| - 1;
      assert s[0..i] == Join(lines);
      forall k | 0 <= k < |lines| ensures Text(lines[k]) == lines[k] {
        LineInJoin(lines, k);
        TextIsLine(lines[k]);
      }
      BlankLineEnds(s, 0, lines);
      JoinEnd(lines);
      assert s[i - 4..i] == s[..i][i - 4..];
    }
  }

  lemma {:induction false} LineInJoin(lines: seq<string>, k: nat)
    requires k < |lines| && NUL !in Join(lines)
    ensures NUL !in lines[k]
    decreases |lines|
  {
    if k == 0 {
      forall i | 0 <= i < |lines[0]| ensures lines[0][i] != NUL {
        assert Join(lines)[i] == lines[0][i];
      }
    } else {
      forall i | 0 <= i < |Join(lines[1..])| ensures Join(lines[1..])[i] != NUL {
        assert Join(lines)[|lines[0]| + 2 + i] == Join(lines[1..])[i];
      }
      LineInJoin(lines[1..], k - 1);
    }
  }

  /** Lines that end with an empty one end with CR LF CR LF. */
  lemma JoinEnd(lines: seq<string>)
    requires |lines| >= 2 && lines[|lines| - 1] == ""
    ensures var n := |Join(lines)|; n >= 4 && Join(lines)[n - 4..] == "\r\n\r\n"
  {
    var n := |lines| - 1;
    var a, b := lines[..n - 1], [lines[n - 1], ""];
    assert lines == a + b;
    JoinConcat(a, b);
    assert b[1..] == [""] && b[1..][1..] == [];
    assert Join(b) == lines[n - 1] + "\r\n" + Join([""]);
    assert Join([""]) == "" + "\r\n" + "" by { assert [""][1..] == []; }
    assert Join(b) == lines[n - 1] + "\r\n\r\n";
  }
}
