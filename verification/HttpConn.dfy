/** The reading half of `http_conn` as an object that works in place on its buffer. Every method is
    proved against the functions of `HttpRequest`. */
module HttpConnection {
  import opened Wrappers
  import opened CStrings
  import opened HttpRequest
  import G = HttpGrammar

  class HttpConn {
    const readBuf: array<char>
    var readIdx: nat
    var checkedIdx: nat
    var startLine: nat
    var check: CheckState
    var verb: Method
    var cgi: bool
    var url: Option<nat>
    var version: Option<nat>
    var host: Option<nat>
    var contentLength: int
    var linger: bool
    var body: Option<nat>

    function Parsed(): Request
      reads this
    {
      Request(check, verb, cgi, url, version, host, contentLength, linger, body)
    }

    function State(): Conn
      reads this, readBuf
    {
      Conn(readBuf[..], readIdx, checkedIdx, startLine, Parsed())
    }

    constructor ()
      ensures State() == Init() && fresh(readBuf)
    {
      readBuf := new char[READ_BUFFER_SIZE](_ => NUL);
      readIdx, checkedIdx, startLine := 0, 0, 0;
      check, verb, cgi := CheckRequestLine, GET, false;
      url, version, host, body := None, None, None, None;
      contentLength, linger := 0, false;
      new;
      assert readBuf[..] == Init().buf;
    }

    /** `recv` stores `t` at the read position. */
    method Receive(t: string)
      requires Ready(State()) && readIdx + |t| <= READ_BUFFER_SIZE
      modifies this`readIdx, readBuf
      ensures State() == Feed(old(State()), t)
    {
      StoreBytes(readIdx, t);
      readIdx := readIdx + |t|;
    }

    method ParseLine() returns (status: LineStatus)
      requires Wf(State())
      modifies this`checkedIdx, readBuf
      ensures Scan(State(), status) == HttpRequest.ParseLine(old(State()))
    {
      while checkedIdx < readIdx
        invariant Wf(State())
        invariant State() == old(State()).(checkedIdx := checkedIdx)
        invariant HttpRequest.ParseLine(State()) == HttpRequest.ParseLine(old(State()))
        decreases readIdx - checkedIdx
      {
        var ch := readBuf[checkedIdx];
        if ch == CR {
          if checkedIdx + 1 == readIdx {
            return LineOpen;
          } else if readBuf[checkedIdx + 1] == LF {
            ghost var b, i := readBuf[..], checkedIdx;
            readBuf[checkedIdx] := NUL;
            checkedIdx := checkedIdx + 1;
            readBuf[checkedIdx] := NUL;
            checkedIdx := checkedIdx + 1;
            assert readBuf[..] == b[i := NUL][i + 1 := NUL];
            return LineOk;
          }
          return LineBad;
        } else if ch == LF {
          if checkedIdx > 1 && readBuf[checkedIdx - 1] == CR {
            ghost var b, i := readBuf[..], checkedIdx;
            readBuf[checkedIdx - 1] := NUL;
            readBuf[checkedIdx] := NUL;
            checkedIdx := checkedIdx + 1;
            assert readBuf[..] == b[i - 1 := NUL][i := NUL];
            return LineOk;
          }
          return LineBad;
        }
        checkedIdx := checkedIdx + 1;
      }
      return LineOpen;
    }

    /** Ends the C string at `at` at its first blank, if it has one. */
    method CutAtBlank(at: nat) returns (k: nat)
      requires at <= readBuf.Length
      modifies readBuf
      ensures var s := old(CStr(readBuf[..], at));
              && k == FirstBlank(s)
              && (k == |s| ==> readBuf[..] == old(readBuf[..]))
              && (k < |s| ==>
                    && at + k < readBuf.Length
                    && readBuf[..] == old(readBuf[..])[at + k := NUL]
                    && CStr(readBuf[..], at) == s[..k]
                    && CStr(readBuf[..], at + k + 1) == s[k + 1..])
    {
      var s := CStr(readBuf[..], at);
      k := FirstBlank(s);
      if k < |s| {
        CStrCut(readBuf[..], at, k);
        readBuf[at + k] := NUL;
      }
    }

    method SkipBlanks(at: nat) returns (next: nat)
      requires at <= readBuf.Length
      ensures var s := CStr(readBuf[..], at);
              next == at + BlankSpan(s) <= readBuf.Length && CStr(readBuf[..], next) == s[BlankSpan(s)..]
    {
      var s := CStr(readBuf[..], at);
      next := at + BlankSpan(s);
      CStrSuffix(readBuf[..], at, BlankSpan(s));
    }

    /** The object now holds what the effect says. */
    ghost predicate Performed(e: Effect, before: seq<char>, code: Code)
      reads this, readBuf
    {
      && StoresOk(e.stores, 0, |before|)
      && Parsed() == e.req && code == e.code && readBuf[..] == Patch(before, e.stores)
    }

    method ParseRequestLine(text: nat) returns (code: Code)
      requires readBuf.Length == READ_BUFFER_SIZE && text <= readBuf.Length
      requires text + |CStr(readBuf[..], text)| + 2 <= READ_BUFFER_SIZE
      modifies this`verb, this`cgi, this`url, this`version, this`check, readBuf
      ensures Performed(HttpRequest.ParseRequestLine(old(Parsed()), old(CStr(readBuf[..], text)), text),
                        old(readBuf[..]), code)
    {
      hide CaseEq, CStr, StrEnd, CleanBytes, Patch, StoresOk, HttpRequest.AfterMethod, FirstBlank, BlankSpan;
      ghost var b, t := readBuf[..], CStr(readBuf[..], text);
      PatchNothing(b);
      var line := CStr(readBuf[..], text);
      var sp := CutAtBlank(text);
      if sp == |line| {
        url := None;
        return BadRequest;
      }
      url := Some(text + sp + 1);
      NulFirst(b, text + sp, []);
      PatchNothing(readBuf[..]);
      var name := CStr(readBuf[..], text);
      if CaseEq(name, "GET") {
        verb := GET;
      } else if CaseEq(name, "POST") {
        verb := POST;
        cgi := true;
      } else {
        return BadRequest;
      }
      ghost var q := Parsed();
      code := AfterMethod(text, t);
      AfterMethodUrl(q, t, text, Split(t), old(url));
      NulFirst(b, text + sp, HttpRequest.AfterMethod(q, t, text, Split(t)).stores);
    }

    /** The part behind the method test; `t` is the text of the whole line. */
    method AfterMethod(text: nat, ghost t: string) returns (code: Code)
      requires readBuf.Length == READ_BUFFER_SIZE && text + |t| + 2 <= READ_BUFFER_SIZE
      requires Split(t).sp < |t| && url == Some(text + Split(t).sp + 1)
      requires CStr(readBuf[..], text + Split(t).sp + 1) == t[Split(t).sp + 1..]
      modifies this`url, this`version, this`check, readBuf
      ensures Performed(HttpRequest.AfterMethod(old(Parsed()), t, text, Split(t)), old(readBuf[..]), code)
    {
      hide CStr, StrEnd, FirstBlank, BlankSpan, IsBlank, Split, StoresOk, Patch, HttpRequest.AfterMethod;
      SplitSteps(t);
      var u := SkipBlanks(url.value);
      url := Some(u);
      ghost var q := Parsed();
      code := CutTarget(text, t, Split(t));
      AfterMethodUrl(q, t, text, Split(t), old(url));
    }

    /** Ends the target at the next blank; `m_url` already points to it. */
    method CutTarget(text: nat, ghost t: string, ghost o: Offsets) returns (code: Code)
      requires readBuf.Length == READ_BUFFER_SIZE && text + |t| + 2 <= READ_BUFFER_SIZE
      requires o.u <= o.w <= |t| && (o.w < |t| ==> o.w < o.v <= |t|)
      requires url == Some(text + o.u) && CStr(readBuf[..], text + o.u) == t[o.u..]
      requires FirstBlank(t[o.u..]) == o.w - o.u
      requires o.w < |t| ==> BlankSpan(t[o.w + 1..]) == o.v - o.w - 1
      modifies this`url, this`version, this`check, readBuf
      ensures Performed(HttpRequest.AfterMethod(old(Parsed()), t, text, o), old(readBuf[..]), code)
    {
      hide CaseEq, CStr, StrEnd, FirstBlank, BlankSpan, Patch, StoresOk, AfterTargetEffect;
      hide HttpRequest.AfterMethod;
      ghost var b := readBuf[..];
      PatchNothing(b);
      var word := CStr(readBuf[..], url.value);
      var k := CutAtBlank(url.value);
      if k == |word| {
        version := None;
        TargetIsLast(old(Parsed()), t, text, o);
        return BadRequest;
      }
      assert t[o.u..][..k] == t[o.u..o.w] && t[o.u..][k + 1..] == t[o.w + 1..];
      code := AfterTarget(url.value + k + 1, text, t, o);
      AfterTargetIs(old(Parsed()), t, text, o);
      NulFirst(b, text + o.w, AfterTargetEffect(old(Parsed()), t, text, o).stores);
    }

    /** The part behind the target: the version test and the rest. */
    method AfterTarget(at: nat, text: nat, ghost t: string, ghost o: Offsets) returns (code: Code)
      requires readBuf.Length == READ_BUFFER_SIZE && text + |t| + 2 <= READ_BUFFER_SIZE
      requires o.u <= o.w < o.v <= |t| && at == text + o.w + 1 && url == Some(text + o.u)
      requires CStr(readBuf[..], text + o.u) == t[o.u..o.w]
      requires CStr(readBuf[..], at) == t[o.w + 1..]
      requires BlankSpan(t[o.w + 1..]) == o.v - o.w - 1
      modifies this`url, this`version, this`check, readBuf
      ensures Performed(AfterTargetEffect(old(Parsed()), t, text, o), old(readBuf[..]), code)
    {
      hide CaseEq, CStr, StrEnd, StoresOk, BlankSpan, IsBlank, Patch, HttpRequest.FinishRequestLine;
      PatchNothing(readBuf[..]);
      var v := SkipBlanks(at);
      version := Some(v);
      assert t[o.w + 1..][o.v - o.w - 1..] == t[o.v..];
      if !CaseEq(CStr(readBuf[..], v), "HTTP/1.1") {
        return BadRequest;
      }
      VersionRoom(t, o);
      code := FinishRequestLine(t[o.u..o.w]);
    }

    /** The part behind the version test; `target` is the C string at `m_url`. */
    method FinishRequestLine(ghost target: string) returns (code: Code)
      requires readBuf.Length == READ_BUFFER_SIZE && url.Some?
      requires url.value + |target| + 11 <= READ_BUFFER_SIZE
      requires CStr(readBuf[..], url.value) == target
      modifies this`url, this`check, readBuf
      ensures Performed(HttpRequest.FinishRequestLine(old(Parsed()), target, old(url.value)),
                        old(readBuf[..]), code)
    {
      hide PathOf, CStr, StrEnd, Overwrite, CleanBytes, Patch;
      G.LiteralsClean();
      ghost var b, u := readBuf[..], url.value;
      PatchNothing(b);
      var fault := LocatePath(target);
      if fault {
        return Undefined;
      }
      if url == None {
        return BadRequest;
      }
      ghost var k := url.value - u;
      CStrSuffix(b, u, k);
      if readBuf[url.value] != '/' {
        return BadRequest;
      }
      check := CheckHeader;
      if |CStr(readBuf[..], url.value)| == 1 {
        StoreBytes(url.value + 1, JUDGE);
        PatchAtMostOne(b, [Store(u + |target|, JUDGE)]);
      }
      return NoRequest;
    }

    /** Moves `m_url` behind a scheme and an authority. `fault` says that the second scheme test was
        reached with a null pointer. */
    method LocatePath(ghost target: string) returns (fault: bool)
      requires readBuf.Length == READ_BUFFER_SIZE && url.Some?
      requires url.value + |target| < READ_BUFFER_SIZE && CStr(readBuf[..], url.value) == target
      modifies this`url
      ensures fault <==> PathOf(target) == NullPointer
      ensures url == if PathOf(target).At? then Some(old(url.value) + PathOf(target).offset) else None
    {
      hide CaseEqN, CStr, StrEnd, FirstOf;
      ghost var u := url.value;
      SchemeLengths(target);
      if CaseEqN(CStr(readBuf[..], url.value), "http://", 7) {
        CStrSuffix(readBuf[..], u, 7);
        var rest := CStr(readBuf[..], url.value + 7);
        var k := FirstOf(rest, '/');
        url := if k == |rest| then None else Some(url.value + 7 + k);
        if url == None {
          return true;
        }
        CStrSuffix(readBuf[..], u, 7 + k);
        G.OriginHasPath(CStr(readBuf[..], url.value));
      }
      if CaseEqN(CStr(readBuf[..], url.value), "https://", 8) {
        CStrSuffix(readBuf[..], u, 8);
        var rest := CStr(readBuf[..], url.value + 8);
        var k := FirstOf(rest, '/');
        url := if k == |rest| then None else Some(url.value + 8 + k);
      }
      return false;
    }

    /** Stores `s` at index `i`, byte by byte. */
    method StoreBytes(i: nat, s: string)
      requires i + |s| <= readBuf.Length
      modifies readBuf
      ensures readBuf[..] == Overwrite(old(readBuf[..]), i, s)
    {
      for k := 0 to |s|
        invariant readBuf[..] == Overwrite(old(readBuf[..]), i, s[..k])
      {
        OverwriteNext(old(readBuf[..]), i, s[..k], s[k]);
        assert s[..k + 1] == s[..k] + [s[k]];
        readBuf[i + k] := s[k];
      }
      assert s[..|s|] == s;
    }

    method ParseHeaders(text: nat) returns (code: Code)
      requires text <= readBuf.Length
      modifies this`check, this`linger, this`contentLength, this`host
      ensures var t := CStr(readBuf[..], text);
              Effect(Parsed(), code, []) ==
              HttpRequest.ParseHeaders(old(Parsed()), t, text, HostSpan(readBuf[..], t, text))
    {
      hide CStr, StrEnd, HostSpan, Atol, BlankSpan;
      var t := CStr(readBuf[..], text);
      if t == "" {
        if contentLength != 0 {
          check := CheckContent;
          return NoRequest;
        }
        return GetRequest;
      } else if CaseEqN(t, "Connection:", 11) {
        var v := t[11..];
        v := v[BlankSpan(v)..];
        if CaseEq(v, "keep-alive") {
          linger := true;
        }
      } else if CaseEqN(t, "Content-length:", 15) {
        var v := t[15..];
        v := v[BlankSpan(v)..];
        contentLength := Atol(v);
      } else if CaseEqN(t, "Host", 5) {
        host := Some(text + 5 + HostSpan(readBuf[..], t, text));
      }
      return NoRequest;
    }

    method ParseContent(text: nat) returns (code: Code)
      requires readBuf.Length == READ_BUFFER_SIZE
      modifies this`body, readBuf
      ensures var e := HttpRequest.ParseContent(old(Parsed()), text, checkedIdx, readIdx);
              Parsed() == e.req && code == e.code && readBuf[..] == Patch(old(readBuf[..]), e.stores)
    {
      if readIdx >= contentLength + checkedIdx {
        var end := text + contentLength;
        if 0 <= end < READ_BUFFER_SIZE {
          readBuf[end] := NUL;
          body := Some(text);
          NulOnly(old(readBuf[..]), end);
          return GetRequest;
        }
        return Undefined;
      }
      return NoRequest;
    }

    /** One turn of the `switch`. */
    method HandleLine() returns (code: Code)
      requires Ready(State()) && (check != CheckContent ==> LineReady(State()))
      modifies this, readBuf
      ensures Result(State(), code) == HttpRequest.HandleLine(old(State()))
    {
      hide CStr, StrEnd, Patch, StoresOk, Clean;
      hide HttpRequest.ParseRequestLine, HttpRequest.ParseHeaders, HttpRequest.ParseContent, HostSpan;
      EffectFrame(State());
      PatchNothing(readBuf[..]);
      LineEnds(State());
      var text := startLine;
      startLine := checkedIdx;
      match check
      case CheckRequestLine => code := ParseRequestLine(text);
      case CheckHeader => code := ParseHeaders(text);
      case CheckContent => code := ParseContent(text);
    }

    method ProcessRead() returns (code: Code)
      requires Ready(State())
      modifies this, readBuf
      ensures Result(State(), code) == HttpRequest.ProcessRead(old(State()))
    {
      hide Clean, HttpRequest.HandleLine, HttpRequest.ParseLine;
      var lineStatus := LineOk;
      while true
        invariant Ready(State())
        invariant ProcessFrom(State(), lineStatus == LineOk) == HttpRequest.ProcessRead(old(State()))
        decreases readIdx - checkedIdx, lineStatus == LineOk
      {
        ghost var c := State();
        ParseLineClean(c);
        if !(check == CheckContent && lineStatus == LineOk) {
          lineStatus := ParseLine();
          if lineStatus != LineOk {
            return NoRequest;
          }
        }
        var before := check;
        code := HandleLine();
        if code != NoRequest {
          return;
        }
        if before == CheckContent {
          lineStatus := LineOpen;
        }
      }
    }
  }

  lemma LineEnds(c: Conn)
    requires Ready(c) && (c.req.check != CheckContent ==> LineReady(c))
    ensures c.req.check != CheckContent ==> c.startLine + |CStr(c.buf, c.startLine)| + 2 <= c.checkedIdx
  {
    if c.req.check != CheckContent {
      assert StrEnd(c.buf, c.startLine) <= c.checkedIdx - 2;
    }
  }

  lemma SchemeLengths(target: string)
    ensures CaseEqN(target, "http://", 7) ==> |target| >= 7
    ensures CaseEqN(target, "https://", 8) ==> |target| >= 8
  {
  }

  lemma AfterMethodUrl(q: Request, t: string, text: nat, o: Offsets, url: Option<nat>)
    requires o.u <= o.w <= |t| && (o.w < |t| ==> o.w < o.v <= |t|)
    ensures AfterMethod(q.(url := url), t, text, o) == AfterMethod(q, t, text, o)
  {
  }

  /** The part of the handler's effect that follows the second separator. */
  function AfterTargetEffect(q: Request, t: string, text: nat, o: Offsets): (e: Effect)
    requires o.u <= o.w < o.v <= |t|
    ensures StoresOk(e.stores, text, text + |t| + 2)
  {
    var q' := q.(version := Some(text + o.v));
    if !CaseEq(t[o.v..], "HTTP/1.1") then Effect(q', BadRequest, [])
    else FinishRequestLine(q', t[o.u..o.w], text + o.u)
  }

  lemma AfterTargetIs(q: Request, t: string, text: nat, o: Offsets)
    requires o.u <= o.w < o.v <= |t| && q.url == Some(text + o.u)
    ensures var e := AfterTargetEffect(q, t, text, o);
            AfterMethod(q, t, text, o) == e.(stores := [Store(text + o.w, NULS)] + e.stores)
  {
    hide CaseEq, FinishRequestLine, StoresOk;
  }

  lemma TargetIsLast(q: Request, t: string, text: nat, o: Offsets)
    requires o.u <= o.w == |t| && q.url == Some(text + o.u)
    ensures AfterMethod(q, t, text, o) == Effect(q.(version := None), BadRequest, [])
  {
  }

  /** The scan steps from one offset to the next. */
  lemma SplitSteps(t: string)
    requires Split(t).sp < |t|
    ensures var o := Split(t);
            && BlankSpan(t[o.sp + 1..]) == o.u - o.sp - 1
            && t[o.sp + 1..][o.u - o.sp - 1..] == t[o.u..]
            && FirstBlank(t[o.u..]) == o.w - o.u
            && (o.w < |t| ==> BlankSpan(t[o.w + 1..]) == o.v - o.w - 1)
  {
    hide FirstBlank, BlankSpan, IsBlank;
  }

  lemma VersionRoom(t: string, o: Offsets)
    requires o.w < o.v <= |t| && CaseEq(t[o.v..], "HTTP/1.1")
    ensures o.w + 9 <= |t|
  {
  }

  /** A NUL stored before `rest`. */
  lemma NulFirst(b: seq<char>, at: nat, rest: seq<Store>)
    requires at < |b| && StoresOk(rest, 0, |b|)
    ensures var stores := [Store(at, NULS)] + rest;
            StoresOk(stores, 0, |b|) && Patch(b, stores) == Patch(b[at := NUL], rest)
  {
    PatchStep(b, [Store(at, NULS)] + rest, at, NULS, rest);
    NulStore(b, at);
  }

  lemma NulOnly(b: seq<char>, at: nat)
    requires at < |b|
    ensures StoresOk([Store(at, NULS)], 0, |b|) && Patch(b, [Store(at, NULS)]) == b[at := NUL]
  {
    NulStore(b, at);
    PatchAtMostOne(b, [Store(at, NULS)]);
  }

  lemma NulStore(b: seq<char>, at: nat)
    requires at < |b|
    ensures Overwrite(b, at, NULS) == b[at := NUL] && StoresOk([Store(at, NULS)], 0, |b|)
  {
  }

  lemma PatchNothing(b: seq<char>)
    ensures Patch(b, []) == b && StoresOk([], 0, |b|)
  {
  }
}
