/** What the request line handler accepts, against the grammar of sections 3 and 3.2 of RFC 9112 (with
    runs of blanks as separators), and what the destructive parse leaves in the buffer. */
module HttpGrammar {
  import opened Wrappers
  import opened CStrings
  import opened HttpRequest

  predicate Blanks(s: string) {
    s != "" && forall i :: 0 <= i < |s| ==> s[i] == ' ' || s[i] == '\t'
  }

  predicate NoBlanks(s: string) {
    s != "" && forall i :: 0 <= i < |s| ==> s[i] != ' ' && s[i] != '\t'
  }

  /** method, blanks, target, blanks, version. */
  datatype Parts = Parts(name: string, ws1: string, target: string, ws2: string, version: string)

  predicate IsRequestLine(t: string, p: Parts) {
    && t == p.name + p.ws1 + p.target + p.ws2 + p.version
    && (CaseEq(p.name, "GET") || CaseEq(p.name, "POST")) && Blanks(p.ws1) && NoBlanks(p.target) && Blanks(p.ws2)
    && CaseEq(p.version, "HTTP/1.1")
  }

  predicate IsScheme(s: string) {
    CaseEq(s, "http://") || CaseEq(s, "https://")
  }

  /** Origin-form, or absolute-form with a scheme and an authority in front of the path. */
  ghost predicate IsTarget(target: string, path: string) {
    && path != "" && path[0] == '/'
    && (target == path || exists scheme, auth :: IsAbsolute(target, scheme, auth, path))
  }

  predicate IsAbsolute(target: string, scheme: string, auth: string, path: string) {
    IsScheme(scheme) && '/' !in auth && target == scheme + auth + path
  }

  // ---- Where Split cuts ----

  lemma SplitFinds(t: string, p: Parts)
    requires IsRequestLine(t, p)
    ensures Split(t) == OffsetsOf(p)
  {
    hide FirstBlank, BlankSpan, MethodOf, CaseEq, IsBlank, Blanks, NoBlanks;
    NameHasNoBlank(p.name);
    VersionStart(p.version);
    WordStart(p.target);
    var rest := p.target + p.ws2 + p.version;
    Regroup(p.name, p.ws1, p.target, p.ws2, p.version);
    FindWord(t, p.name, p.ws1, rest);
    var u := |p.name| + |p.ws1|;
    FindWord(rest, p.target, p.ws2, p.version);
    DropTwice(t, u, |p.target| + 1);
  }

  lemma WordStart(word: string)
    requires NoBlanks(word)
    ensures word != "" && !IsBlank(word[0])
  {
  }

  lemma Regroup(a: string, b: string, c: string, d: string, e: string)
    ensures a + b + c + d + e == a + b + (c + d + e)
    ensures (a + b + c + d + e)[|a| + |b|..] == c + d + e
    ensures c != "" ==> (c + d + e)[0] == c[0]
  {
    assert a + b + c + d + e == (a + b) + (c + d + e);
  }

  lemma DropTwice(t: string, i: nat, j: nat)
    requires i + j <= |t|
    ensures t[i..][j..] == t[i + j..]
  {
  }

  lemma VersionStart(version: string)
    requires CaseEq(version, "HTTP/1.1")
    ensures version != "" && !IsBlank(version[0])
  {
    assert ToLower(version[0]) == ToLower("HTTP/1.1"[0]);
  }

  /** A word, blanks and something that does not start with a blank. */
  lemma FindWord(t: string, word: string, ws: string, rest: string)
    requires t == word + ws + rest && NoBlanks(word) && Blanks(ws)
    requires rest != "" && !IsBlank(rest[0])
    ensures FirstBlank(t) == |word|
    ensures BlankSpan(t[|word| + 1..]) == |ws| - 1
  {
    assert t == word + (ws + rest);
    FirstBlankIs(t, |word|);
    assert t[|word| + 1..] == ws[1..] + rest;
    BlankSpanIs(ws[1..] + rest, |ws| - 1);
  }

  function OffsetsOf(p: Parts): Offsets {
    var sp := |p.name|;
    var u := sp + |p.ws1|;
    var w := u + |p.target|;
    Offsets(sp, u, w, w + |p.ws2|)
  }

  lemma FirstBlankIs(s: string, k: nat)
    requires k < |s| && IsBlank(s[k]) && forall i :: 0 <= i < k ==> !IsBlank(s[i])
    ensures FirstBlank(s) == k
  {
    FirstBlankMeaning(s, k);
  }

  lemma BlankSpanIs(s: string, k: nat)
    requires k < |s| && !IsBlank(s[k]) && forall i :: 0 <= i < k ==> IsBlank(s[i])
    ensures BlankSpan(s) == k
  {
    BlankSpanMeaning(s, k);
  }

  /** The method is the one that the name spells, in letters of any case. */
  lemma MethodIs(name: string)
    ensures MethodOf(name).Some? <==> CaseEq(name, "GET") || CaseEq(name, "POST")
    ensures MethodOf(name) == Some(GET) <==> CaseEq(name, "GET")
    ensures MethodOf(name) == Some(POST) <==> CaseEq(name, "POST")
  {
  }

  lemma NameHasNoBlank(name: string)
    requires CaseEq(name, "GET") || CaseEq(name, "POST")
    ensures NoBlanks(name)
  {
    var lit := if CaseEq(name, "GET") then "GET" else "POST";
    forall i | 0 <= i < |name| ensures !IsBlank(name[i]) {
      assert ToLower(name[i]) == ToLower(lit[i]);
    }
  }

  /** The parts that `Split` cuts a text into. */
  function PartsOf(t: string): Parts {
    var o := Split(t);
    if o.sp < |t| && o.w < |t|
    then Parts(t[..o.sp], t[o.sp..o.u], t[o.u..o.w], t[o.w..o.v], t[o.v..])
    else Parts(t, "", "", "", "")
  }

  lemma SplitIsSound(t: string)
    requires var o := Split(t);
             && o.sp < |t| && o.w < |t| && MethodOf(t[..o.sp]).Some? && CaseEq(t[o.v..], "HTTP/1.1")
    ensures IsRequestLine(t, PartsOf(t))
  {
    hide FirstBlank, BlankSpan, MethodOf, CaseEq, IsBlank, Blanks, NoBlanks, Split;
    MethodIs(t[..Split(t).sp]);
    var o := Split(t);
    CutIntoFive(t, o.sp, o.u, o.w, o.v);
    FirstGap(t);
    SecondGap(t);
    TargetWord(t);
  }

  lemma FirstGap(t: string)
    requires Split(t).sp < |t|
    ensures Blanks(t[Split(t).sp..Split(t).u])
  {
    hide FirstBlank, BlankSpan, IsBlank, Blanks;
    BlankFound(t, 0);
    GapIsBlank(t, Split(t).sp);
  }

  lemma SecondGap(t: string)
    requires Split(t).sp < |t| && Split(t).w < |t|
    ensures Blanks(t[Split(t).w..Split(t).v])
  {
    hide FirstBlank, BlankSpan, IsBlank, Blanks;
    BlankFound(t, Split(t).u);
    GapIsBlank(t, Split(t).w);
  }

  lemma TargetWord(t: string)
    requires Split(t).sp < |t| && Split(t).w < |t|
    ensures NoBlanks(t[Split(t).u..Split(t).w])
  {
    hide FirstBlank, BlankSpan, IsBlank, NoBlanks;
    WordFound(t, Split(t).sp + 1);
    WordAt(t, Split(t).u);
  }

  lemma BlankFound(t: string, i: nat)
    requires i <= |t| && i + FirstBlank(t[i..]) < |t|
    ensures IsBlank(t[i + FirstBlank(t[i..])])
    ensures t[0..] == t
  {
    FirstBlankMeaning(t[i..], FirstBlank(t[i..]));
  }

  lemma WordFound(t: string, i: nat)
    requires i <= |t| && i + BlankSpan(t[i..]) < |t|
    ensures FirstBlank(t[i + BlankSpan(t[i..])..]) > 0
  {
    var k := BlankSpan(t[i..]);
    BlankSpanMeaning(t[i..], k);
    assert t[i..][k] == t[i + k..][0];
  }

  lemma CutIntoFive(t: string, a: nat, b: nat, c: nat, d: nat)
    requires a <= b <= c <= d <= |t|
    ensures t == t[..a] + t[a..b] + t[b..c] + t[c..d] + t[d..]
  {
    assert t[..b] == t[..a] + t[a..b];
    assert t[..c] == t[..b] + t[b..c];
    assert t[..d] == t[..c] + t[c..d];
    assert t == t[..d] + t[d..];
  }

  lemma GapIsBlank(t: string, k: nat)
    requires k < |t| && IsBlank(t[k])
    ensures Blanks(t[k..k + 1 + BlankSpan(t[k + 1..])])
  {
    var e := k + 1 + BlankSpan(t[k + 1..]);
    BlankSpanMeaning(t[k + 1..], BlankSpan(t[k + 1..]));
    forall i | 0 <= i < e - k ensures IsBlank(t[k..e][i]) {
      if i > 0 { assert t[k..e][i] == t[k + 1..][i - 1]; }
    }
  }

  lemma WordAt(t: string, k: nat)
    requires k < |t| && FirstBlank(t[k..]) > 0
    ensures NoBlanks(t[k..k + FirstBlank(t[k..])])
  {
    FirstBlankMeaning(t[k..], FirstBlank(t[k..]));
  }

  // ---- Where the path starts ----

  lemma FirstOfIs(s: string, c: char, k: nat)
    requires k <= |s| && c !in s[..k] && (k < |s| ==> s[k] == c)
    ensures FirstOf(s, c) == k
  {
    assert forall i :: 0 <= i < k ==> s[..k][i] == s[i];
  }

  lemma AbsoluteHasPath(target: string, scheme: string, auth: string, path: string)
    requires IsAbsolute(target, scheme, auth, path) && (path == "" || path[0] == '/')
    ensures PathOf(target) == if path != "" then At(|scheme| + |auth|)
                              else if CaseEq(scheme, "http://") then NullPointer else NoSlash
  {
    var n := |scheme|;
    assert target[..n] == scheme && target[n..] == auth + path;
    SchemeTests(target, scheme);
    assert target[n..][..|auth|] == auth;
    FirstOfIs(target[n..], '/', |auth|);
  }

  lemma SchemeTests(target: string, scheme: string)
    requires IsScheme(scheme) && |scheme| <= |target| && target[..|scheme|] == scheme
    ensures CaseEq(scheme, "http://") <==> CaseEqN(target, "http://", 7)
    ensures CaseEq(scheme, "https://") <==> CaseEqN(target, "https://", 8)
    ensures |scheme| == if CaseEq(scheme, "http://") then 7 else 8
  {
    var http, https := "http://", "https://";
    assert Take(http, 7) == http && Take(https, 8) == https;
    if CaseEq(scheme, https) {
      assert ToLower(scheme[4]) == 's';
      assert Take(target, 8) == scheme;
      assert Take(target, 7)[4] == scheme[4];
    } else {
      assert Take(target, 7) == scheme;
      assert ToLower(scheme[4]) == ':';
      assert |target| > 7 ==> Take(target, 8)[4] == scheme[4];
    }
  }

  lemma OriginHasPath(target: string)
    requires target != "" && target[0] == '/'
    ensures PathOf(target) == At(0)
    ensures !CaseEqN(target, "https://", 8)
  {
    assert Take(target, 7)[0] == '/' && Take(target, 8)[0] == '/';
    assert ToLower('/') == '/' && ToLower(Take("http://", 7)[0]) == 'h' && ToLower(Take("https://", 8)[0]) == 'h';
  }

  lemma TargetHasPath(target: string, path: string)
    requires IsTarget(target, path)
    ensures |path| <= |target| && PathOf(target) == At(|target| - |path|)
    ensures target[|target| - |path|..] == path
  {
    if target == path {
      OriginHasPath(target);
    } else {
      var scheme, auth :| IsAbsolute(target, scheme, auth, path);
      AbsoluteHasPath(target, scheme, auth, path);
    }
  }

  lemma PathIsSound(target: string)
    ensures var p := PathOf(target);
            p.At? && p.offset < |target| && target[p.offset] == '/' ==> IsTarget(target, target[p.offset..])
    ensures PathOf(target) == NullPointer ==>
              IsAbsolute(target, target[..7], target[7..], "") && CaseEq(target[..7], "http://")
  {
    hide CaseEqN, CaseEq, FirstOf;
    SchemesAre();
    if CaseEqN(target, "http://", 7) {
      SplitAtSlash(target, "http://");
    } else if CaseEqN(target, "https://", 8) {
      SplitAtSlash(target, "https://");
    }
  }

  lemma SchemesAre()
    ensures IsScheme("http://") && IsScheme("https://")
  {
  }

  lemma SplitAtSlash(target: string, scheme: string)
    requires IsScheme(scheme) && CaseEqN(target, scheme, |scheme|)
    ensures |scheme| <= |target| && CaseEq(target[..|scheme|], scheme)
    ensures var k := |scheme| + FirstOf(target[|scheme|..], '/');
            IsAbsolute(target, target[..|scheme|], target[|scheme|..k], target[k..])
  {
    hide CaseEq, FirstOf, ToLower;
    var n := |scheme|;
    PrefixMatches(target, scheme);
    if CaseEq(scheme, "http://") {
      CaseTrans(target[..n], scheme, "http://");
    } else {
      CaseTrans(target[..n], scheme, "https://");
    }
    CutAtSlash(target, n);
  }

  lemma PrefixMatches(a: string, b: string)
    requires CaseEqN(a, b, |b|)
    ensures |b| <= |a| && CaseEq(a[..|b|], b)
  {
  }

  lemma CaseTrans(a: string, b: string, c: string)
    requires CaseEq(a, b) && CaseEq(b, c)
    ensures CaseEq(a, c)
  {
  }

  lemma CutAtSlash(target: string, n: nat)
    requires n <= |target|
    ensures var k := n + FirstOf(target[n..], '/');
            '/' !in target[n..k] && target == target[..n] + target[n..k] + target[k..]
  {
    var k := n + FirstOf(target[n..], '/');
    assert forall i :: 0 <= i < k - n ==> target[n..k][i] == target[n..][i];
    assert target[..k] == target[..n] + target[n..k];
    assert target == target[..k] + target[k..];
  }

  // ---- The handler ----

  /** Where the URL starts in the text. */
  function UrlOffset(p: Parts, path: string): int {
    |p.name| + |p.ws1| + |p.target| - |path|
  }

  /** Every line of the grammar is accepted, with exactly these consequences. */
  lemma RequestLineAccepts(q: Request, t: string, text: nat, p: Parts, path: string)
    requires IsRequestLine(t, p) && IsTarget(p.target, path)
    ensures UrlOffset(p, path) >= 0
    ensures var o := OffsetsOf(p);
            ParseRequestLine(q, t, text) ==
            Effect(q.(check := CheckHeader, verb := if CaseEq(p.name, "GET") then GET else POST,
                      cgi := q.cgi || CaseEq(p.name, "POST"),
                      url := Some(text + UrlOffset(p, path)), version := Some(text + o.v)),
                   NoRequest, UrlStores(text, o.sp, o.w, path))
  {
    hide Split, MethodOf, CaseEq, IsTarget, AfterMethod, IsRequestLine, StoresOk, TargetStores;
    SplitFinds(t, p);
    PartSlices(t, p);
    MethodIs(p.name);
    var m := MethodOf(p.name).value;
    AfterMethodAccepts(q.(verb := m, cgi := m == POST || q.cgi), t, text, OffsetsOf(p), path);
  }

  /** The 11 bytes that turn "/" into "/judge.html" end at most behind the two NULs of the line, and
      exactly there if a single blank precedes the version. */
  lemma JudgeRoom(t: string, p: Parts)
    requires IsRequestLine(t, p)
    ensures var w := OffsetsOf(p).w;
            w + |JUDGE| <= |t| + 2 && (w + |JUDGE| == |t| + 2 <==> |p.ws2| == 1)
  {
    PartSlices(t, p);
    VersionLength(p.version);
  }

  lemma AfterMethodAccepts(q: Request, t: string, text: nat, o: Offsets, path: string)
    requires o.u <= o.w < o.v <= |t| && CaseEq(t[o.v..], "HTTP/1.1") && IsTarget(t[o.u..o.w], path)
    ensures |path| <= o.w - o.u
    ensures AfterMethod(q, t, text, o) ==
            Effect(q.(check := CheckHeader, url := Some(text + o.w - |path|), version := Some(text + o.v)),
                   NoRequest, TargetStores(text + o.w, path))
  {
    hide CaseEq, IsTarget, FinishRequestLine, StoresOk;
    FinishAccepts(q.(url := Some(text + o.u), version := Some(text + o.v)), t[o.u..o.w], text + o.u, path);
  }

  lemma FinishAccepts(q: Request, target: string, u: nat, path: string)
    requires IsTarget(target, path)
    ensures |path| <= |target|
    ensures FinishRequestLine(q, target, u) ==
            Effect(q.(check := CheckHeader, url := Some(u + |target| - |path|)), NoRequest,
                   if path == "/" then [Store(u + |target|, JUDGE)] else [])
  {
    hide IsTarget, PathOf;
    TargetHasPath(target, path);
    PathStarts(target, path);
    assert target[|target| - |path|] == path[0];
    assert path == "/" <==> |path| == 1;
  }

  lemma PartSlices(t: string, p: Parts)
    requires IsRequestLine(t, p)
    ensures var o := OffsetsOf(p);
            && |t| == o.v + |p.version| && p.ws1 != "" && p.ws2 != "" && p.version != ""
            && t[..o.sp] == p.name && t[o.u..o.w] == p.target && t[o.v..] == p.version
            && MethodOf(p.name).Some? && (CaseEq(p.name, "GET") || CaseEq(p.name, "POST"))
            && CaseEq(p.version, "HTTP/1.1")
  {
    MethodIs(p.name);
  }

  lemma PathStarts(target: string, path: string)
    requires IsTarget(target, path)
    ensures path != "" && path[0] == '/'
  {
  }

  /** The handler accepts a text exactly if it is a request line with an origin-form or absolute-form
      target. */
  lemma RequestLineGrammar(q: Request, t: string, text: nat)
    ensures ParseRequestLine(q, t, text).code == NoRequest <==>
            exists p, path :: IsRequestLine(t, p) && IsTarget(p.target, path)
  {
    hide FirstBlank, BlankSpan, MethodOf, CaseEq, IsTarget, PathOf, IsRequestLine;
    var o := Split(t);
    if ParseRequestLine(q, t, text).code == NoRequest {
      SplitIsSound(t);
      PathIsSound(t[o.u..o.w]);
      assert IsTarget(PartsOf(t).target, PartsOf(t).target[PathOf(t[o.u..o.w]).offset..]);
    }
    forall p, path | IsRequestLine(t, p) && IsTarget(p.target, path)
      ensures ParseRequestLine(q, t, text).code == NoRequest
    {
      RequestLineAccepts(q, t, text, p, path);
    }
  }

  /** A line that is not accepted leaves the parser in its state. */
  lemma RejectedStays(q: Request, t: string, text: nat)
    ensures ParseRequestLine(q, t, text).code != NoRequest ==> ParseRequestLine(q, t, text).req.check == q.check
  {
  }

  /** The null pointer reaches the second scheme test exactly for an "http://" target with no slash
      behind the authority. */
  lemma NullPointerExactly(q: Request, t: string, text: nat)
    ensures ParseRequestLine(q, t, text).code == Undefined <==>
            exists p, scheme, auth ::
              IsRequestLine(t, p) && CaseEq(scheme, "http://") && IsAbsolute(p.target, scheme, auth, "")
  {
    hide FirstBlank, BlankSpan, MethodOf, CaseEq, IsRequestLine;
    var o := Split(t);
    if ParseRequestLine(q, t, text).code == Undefined {
      SplitIsSound(t);
      var target := PartsOf(t).target;
      PathIsSound(target);
      assert IsRequestLine(t, PartsOf(t)) && IsAbsolute(target, target[..7], target[7..], "");
    }
    forall p, scheme, auth |
      IsRequestLine(t, p) && CaseEq(scheme, "http://") && IsAbsolute(p.target, scheme, auth, "")
      ensures ParseRequestLine(q, t, text).code == Undefined
    {
      SplitFinds(t, p);
      PartSlices(t, p);
      AbsoluteHasPath(p.target, scheme, auth, "");
    }
  }

  // ---- What the destructive parse leaves in the buffer ----

  function FinalUrl(path: string): string {
    if path == "/" then "/judge.html" else path
  }

  /** After the stores the C string at `m_url` is the path, and "/judge.html" instead of "/". */
  lemma {:induction false} UrlText(b: seq<char>, q: Request, text: nat, p: Parts, path: string)
    requires text <= |b| && text + |CStr(b, text)| + 2 <= |b|
    requires IsRequestLine(CStr(b, text), p) && IsTarget(p.target, path)
    ensures var e := ParseRequestLine(q, CStr(b, text), text);
            && StoresOk(e.stores, 0, |b|)
            && e.req.url.Some? && e.req.url.value <= |b|
            && CStr(Patch(b, e.stores), e.req.url.value) == FinalUrl(path)
  {
    hide *;
    var t := CStr(b, text);
    RequestLineAccepts(q, t, text, p, path);
    UrlPlace(t, p, path);
    var o := OffsetsOf(p);
    PatchedUrl(b, text, o.sp, UrlOffset(p, path), o.w, path);
  }

  /** Where the path of the target stands in the text. */
  lemma UrlPlace(t: string, p: Parts, path: string)
    requires IsRequestLine(t, p) && IsTarget(p.target, path)
    ensures var o := OffsetsOf(p);
            var k := UrlOffset(p, path);
            && o.sp < k < o.w && o.w + 9 <= |t| && t[k..o.w] == path && path[0] == '/'
  {
    hide FirstBlank, BlankSpan, MethodOf, CaseEq, IsTarget, PathOf, IsRequestLine;
    PartSlices(t, p);
    TargetHasPath(p.target, path);
    VersionLength(p.version);
    PathStarts(p.target, path);
    var o := OffsetsOf(p);
    var k := UrlOffset(p, path);
    assert t[k..o.w] == t[o.u..o.w][k - o.u..];
  }

  /** The stores of an accepted request line. */
  function UrlStores(text: nat, sp: nat, w: nat, path: string): seq<Store> {
    [Store(text + sp, NULS)] + TargetStores(text + w, path)
  }

  function TargetStores(end: nat, path: string): seq<Store> {
    [Store(end, NULS)] + if path == "/" then [Store(end, JUDGE)] else []
  }

  lemma PatchedUrl(b: seq<char>, text: nat, sp: nat, k: nat, w: nat, path: string)
    requires text <= |b| && text + |CStr(b, text)| + 2 <= |b|
    requires sp < k < w && w + 9 <= |CStr(b, text)| && CStr(b, text)[k..w] == path && path[0] == '/'
    ensures StoresOk(UrlStores(text, sp, w, path), 0, |b|)
    ensures CStr(Patch(b, UrlStores(text, sp, w, path)), text + k) == FinalUrl(path)
  {
    hide *;
    UrlStoresOk(text, sp, w, path, |b|);
    if path == "/" {
      PatchedJudge(b, text, sp, k, w);
    } else {
      PatchedPlain(b, text, sp, k, w, path);
    }
  }

  lemma PatchedPlain(b: seq<char>, text: nat, sp: nat, k: nat, w: nat, path: string)
    requires text <= |b| && text + |CStr(b, text)| + 2 <= |b|
    requires sp < k < w && w + 9 <= |CStr(b, text)| && CStr(b, text)[k..w] == path && path != "/"
    requires StoresOk(UrlStores(text, sp, w, path), 0, |b|)
    ensures CStr(Patch(b, UrlStores(text, sp, w, path)), text + k) == FinalUrl(path)
  {
    hide UrlStores, Patch, Overwrite, CStr, StrEnd, StoresOk;
    StoresLeavePath(b, text, sp, k, w, path);
    PatchedBy(b, text, sp, w, path);
    PatchedTarget(Overwrite(b, text + sp, NULS), text + w, path);
  }

  lemma PatchedJudge(b: seq<char>, text: nat, sp: nat, k: nat, w: nat)
    requires text <= |b| && text + |CStr(b, text)| + 2 <= |b|
    requires sp < k < w && w + 9 <= |CStr(b, text)| && CStr(b, text)[k..w] == "/"
    requires StoresOk(UrlStores(text, sp, w, "/"), 0, |b|)
    ensures CStr(Patch(b, UrlStores(text, sp, w, "/")), text + k) == FinalUrl("/")
  {
    hide *;
    StoresLeavePath(b, text, sp, k, w, "/");
    PatchedBy(b, text, sp, w, "/");
    PatchedRoot(Overwrite(b, text + sp, NULS), text + w);
    JudgeText(Overwrite(Overwrite(b, text + sp, NULS), text + w, NULS), text + k, text + w);
  }

  lemma UrlStoresOk(text: nat, sp: nat, w: nat, path: string, n: nat)
    requires sp < w && text + w + 11 <= n
    ensures StoresOk(UrlStores(text, sp, w, path), 0, n)
  {
    LiteralsClean();
  }

  lemma {:induction false} PatchedBy(b: seq<char>, text: nat, sp: nat, w: nat, path: string)
    requires sp < w && text + w + 11 <= |b| && StoresOk(UrlStores(text, sp, w, path), 0, |b|)
    ensures StoresOk(TargetStores(text + w, path), 0, |b|) && |NULS| == 1
    ensures Patch(b, UrlStores(text, sp, w, path)) ==
            Patch(Overwrite(b, text + sp, NULS), TargetStores(text + w, path))
  {
    hide *;
    StoresSplit(text, sp, w, path, |b|);
    PatchStep(b, UrlStores(text, sp, w, path), text + sp, NULS, TargetStores(text + w, path));
  }

  lemma PatchedTarget(b: seq<char>, end: nat, path: string)
    requires end + 11 <= |b| && StoresOk(TargetStores(end, path), 0, |b|) && path != "/"
    ensures Patch(b, TargetStores(end, path)) == Overwrite(b, end, NULS)
  {
    hide Patch, Overwrite, StoresOk;
    PatchStep(b, TargetStores(end, path), end, NULS, []);
    PatchAtMostOne(Overwrite(b, end, NULS), []);
  }

  lemma PatchedRoot(b: seq<char>, end: nat)
    requires end + 11 <= |b| && StoresOk(TargetStores(end, "/"), 0, |b|)
    ensures |JUDGE| == 11 && |NULS| == 1
    ensures Patch(b, TargetStores(end, "/")) == Overwrite(Overwrite(b, end, NULS), end, JUDGE)
  {
    hide Patch, Overwrite, StoresOk;
    PatchStep(b, TargetStores(end, "/"), end, NULS, [Store(end, JUDGE)]);
    PatchAtMostOne(Overwrite(b, end, NULS), [Store(end, JUDGE)]);
  }

  lemma StoresSplit(text: nat, sp: nat, w: nat, path: string, n: nat)
    requires sp < w && text + w + 11 <= n
    ensures var tail, judge := TargetStores(text + w, path), if path == "/" then [Store(text + w, JUDGE)] else [];
            && UrlStores(text, sp, w, path) == [Store(text + sp, NULS)] + tail
            && tail == [Store(text + w, NULS)] + judge
    ensures |NULS| == 1 && |JUDGE| == 11
  {
  }

  lemma LiteralsClean()
    ensures CleanBytes(JUDGE) && CleanBytes(NULS) && |JUDGE| == 11 && |NULS| == 1
  {
  }

  lemma VersionLength(version: string)
    requires CaseEq(version, "HTTP/1.1")
    ensures |version| == 8
  {
  }

  /** The two separator NULs leave the path between them as a C string. */
  lemma StoresLeavePath(b: seq<char>, text: nat, sp: nat, k: nat, w: nat, path: string)
    requires text <= |b| && sp < k <= w < |CStr(b, text)| && CStr(b, text)[k..w] == path
    ensures var b' := Overwrite(Overwrite(b, text + sp, NULS), text + w, NULS);
            CStr(b', text + k) == path && (path != "" ==> b'[text + k] == path[0])
  {
    var b' := Overwrite(Overwrite(b, text + sp, NULS), text + w, NULS);
    forall i | 0 <= i < |path| ensures b'[text + k + i] == path[i] && path[i] != NUL {
      assert path[i] == CStr(b, text)[k + i];
    }
    TextIs(b', text + k, path);
  }

  lemma TextIs(b: seq<char>, i: nat, s: string)
    requires i + |s| < |b| && b[i + |s|] == NUL
    requires forall k :: 0 <= k < |s| ==> b[i + k] == s[k] && s[k] != NUL
    ensures CStr(b, i) == s
  {
    assert forall k :: i <= k < i + |s| ==> b[k] == s[k - i];
    StrEndIs(b, i, i + |s|);
  }

  lemma JudgeText(b: seq<char>, i: nat, j: nat)
    requires j == i + 1 && j + |JUDGE| <= |b| && b[i] == '/'
    ensures CStr(Overwrite(b, j, JUDGE), i) == FinalUrl("/")
  {
    var b' := Overwrite(b, i + 1, JUDGE);
    assert forall k :: 0 <= k < 10 ==> JUDGE[k] == "judge.html"[k] && JUDGE[k] != NUL;
    assert forall k {:trigger b'[i + k]} :: 0 < k < 11 ==> b'[i + k] == JUDGE[k - 1];
    TextIs(b', i, "/judge.html");
  }
}
