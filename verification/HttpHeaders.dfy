/** What the header handler and the body check do, stated on the shape of the line instead of on the
    steps of the code. */
module HttpHeaders {
  import opened Wrappers
  import opened CStrings
  import opened HttpRequest
  import G = HttpGrammar

  /** A field name (with its colon), optional blanks, and a value that does not start with one. */
  ghost predicate IsField(t: string, lit: string, name: string, ws: string, value: string) {
    && t == name + ws + value && CaseEq(name, lit)
    && (forall i :: 0 <= i < |ws| ==> ws[i] == ' ' || ws[i] == '\t')
    && (value != "" ==> value[0] != ' ' && value[0] != '\t')
  }

  ghost predicate HasField(t: string, lit: string, value: string) {
    exists name, ws :: IsField(t, lit, name, ws, value)
  }

  /** The value that the code extracts after a matching name. */
  function ValueOf(t: string, n: nat): string
    requires n <= |t|
  {
    t[n..][BlankSpan(t[n..])..]
  }

  /** The prefix test and the extraction together recognise exactly the fields of that name. */
  lemma FieldExactly(t: string, lit: string, value: string)
    ensures HasField(t, lit, value) <==>
            CaseEqN(t, lit, |lit|) && |lit| <= |t| && value == ValueOf(t, |lit|)
  {
    if CaseEqN(t, lit, |lit|) && |lit| <= |t| && value == ValueOf(t, |lit|) {
      FieldFound(t, lit);
    }
    forall name, ws | IsField(t, lit, name, ws, value)
      ensures CaseEqN(t, lit, |lit|) && |lit| <= |t| && value == ValueOf(t, |lit|)
    {
      FieldRecognised(t, lit, name, ws, value);
    }
  }

  lemma FieldFound(t: string, lit: string)
    requires CaseEqN(t, lit, |lit|) && |lit| <= |t|
    ensures HasField(t, lit, ValueOf(t, |lit|))
  {
    var n := |lit|;
    var k := BlankSpan(t[n..]);
    G.PrefixMatches(t, lit);
    BlankSpanMeaning(t[n..], k);
    assert t == t[..n] + t[n..][..k] + ValueOf(t, n);
    assert IsField(t, lit, t[..n], t[n..][..k], ValueOf(t, n));
  }

  lemma FieldRecognised(t: string, lit: string, name: string, ws: string, value: string)
    requires IsField(t, lit, name, ws, value)
    ensures CaseEqN(t, lit, |lit|) && |lit| <= |t| && value == ValueOf(t, |lit|)
  {
    var n := |lit|;
    assert t[..n] == name && t[n..] == ws + value;
    assert Take(t, n) == name && Take(lit, n) == lit;
    BlankSpanMeaning(t[n..], |ws|);
    assert (ws + value)[|ws|..] == value;
  }

  const CONNECTION: string := "Connection:"
  const CONTENT_LENGTH: string := "Content-length:"

  lemma LiteralLengths()
    ensures |CONNECTION| == 11 && |CONTENT_LENGTH| == 15 && |"Host"| == 4
  {
  }

  /** No line is both. */
  lemma NamesDiffer(t: string)
    ensures !(CaseEqN(t, CONNECTION, 11) && CaseEqN(t, CONTENT_LENGTH, 15))
  {
    if CaseEqN(t, CONNECTION, 11) {
      G.PrefixMatches(t, CONNECTION);
      assert ToLower(t[..11][3]) == ToLower(CONNECTION[3]) == 'n';
      assert ToLower(CONTENT_LENGTH[3]) == 't' && (|t| >= 15 ==> t[..15][3] == t[..11][3]);
      if CaseEqN(t, CONTENT_LENGTH, 15) { G.PrefixMatches(t, CONTENT_LENGTH); }
    }
  }

  lemma NotEmpty(t: string, lit: string)
    requires lit != "" && CaseEqN(t, lit, |lit|)
    ensures |t| >= |lit|
  {
  }

  /** The linger flag is raised exactly by a "Connection:" field with the value "keep-alive", and nothing
      ever lowers it. */
  lemma LingerExactly(q: Request, t: string, text: nat, hostSpan: nat)
    ensures ParseHeaders(q, t, text, hostSpan).req.linger <==>
            q.linger || exists v :: HasField(t, CONNECTION, v) && CaseEq(v, "keep-alive")
  {
    hide CaseEqN, CaseEq, HasField;
    LiteralLengths();
    var v := if |t| >= 11 then ValueOf(t, 11) else "";
    FieldExactly(t, CONNECTION, v);
    forall w | HasField(t, CONNECTION, w) ensures |t| >= 11 && w == v && CaseEqN(t, CONNECTION, 11) {
      FieldExactly(t, CONNECTION, w);
    }
    if CaseEqN(t, CONNECTION, 11) { NotEmpty(t, CONNECTION); }
  }

  /** The length is set exactly by a "Content-length:" field, to the number its value starts with. */
  lemma LengthExactly(q: Request, t: string, text: nat, hostSpan: nat, v: string)
    ensures HasField(t, CONTENT_LENGTH, v) ==> ParseHeaders(q, t, text, hostSpan).req.contentLength == Atol(v)
    ensures (forall w :: !HasField(t, CONTENT_LENGTH, w)) ==>
              ParseHeaders(q, t, text, hostSpan).req.contentLength == q.contentLength
  {
    hide CaseEqN, CaseEq, HasField, Atol;
    LiteralLengths();
    FieldExactly(t, CONTENT_LENGTH, v);
    NamesDiffer(t);
    if CaseEqN(t, CONTENT_LENGTH, 15) {
      NotEmpty(t, CONTENT_LENGTH);
      FieldExactly(t, CONTENT_LENGTH, ValueOf(t, 15));
    }
  }

  /** The head ends exactly at a line without text: with GET_REQUEST if no length was announced, with
      the move to the body otherwise. Every other line is followed by more of the head. */
  lemma BlankLineExactly(q: Request, t: string, text: nat, hostSpan: nat)
    ensures var e := ParseHeaders(q, t, text, hostSpan);
            && (e.code == GetRequest <==> t == "" && q.contentLength == 0)
            && (e.code == NoRequest <==> t != "" || q.contentLength != 0)
            && e.req.check == (if t == "" && q.contentLength != 0 then CheckContent else q.check)
            && (t == "" ==> e.req == q.(check := e.req.check))
  {
  }

  /** The host is recorded only for a line that consists of "Host" and nothing else, so never for a
      "Host:" field. */
  lemma HostNeverFromField(q: Request, t: string, text: nat, hostSpan: nat)
    ensures CaseEqN(t, "Host", 5) <==> CaseEq(t, "Host")
    ensures ParseHeaders(q, t, text, hostSpan).req.host ==
            if CaseEq(t, "Host") then Some(text + 5 + hostSpan) else q.host
    ensures forall v :: HasField(t, "Host:", v) ==> ParseHeaders(q, t, text, hostSpan).req.host == q.host
  {
    assert Take("Host", 5) == "Host";
    if CaseEqN(t, "Host", 5) {
      assert |Take(t, 5)| == 4;
    }
    forall v | HasField(t, "Host:", v) ensures |t| >= 5 {
      FieldExactly(t, "Host:", v);
    }
  }

  /** The recorded host is the first byte behind the line's first NUL that is no blank. */
  lemma HostSpanMeaning(b: seq<char>, t: string, text: nat)
    requires CaseEq(t, "Host") && text + 5 <= |b|
    ensures var k := text + 5 + HostSpan(b, t, text);
            && k <= |b| && (k < |b| ==> !IsBlank(b[k]))
            && forall i :: text + 5 <= i < k ==> IsBlank(b[i])
  {
    HostNeverFromField(Init().req, t, text, 0);
    hide StrEnd, BlankSpan, CaseEq, IsBlank;
    BlanksBehind(b, text + 5);
  }

  lemma BlanksBehind(b: seq<char>, p: nat)
    requires p <= |b|
    ensures var k := p + BlankSpan(CStr(b, p));
            k <= |b| && (k < |b| ==> !IsBlank(b[k])) && forall i :: p <= i < k ==> IsBlank(b[i])
  {
    hide BlankSpan;
    var rest := CStr(b, p);
    var n := BlankSpan(rest);
    BlankSpanMeaning(rest, n);
    forall i | p <= i < p + n ensures IsBlank(b[i]) {
      assert b[i] == rest[i - p];
    }
  }

  /** A complete body's store misses the buffer exactly if a negative length reaches below its first byte
      or the body ends with the buffer's last byte. */
  lemma BodyStoreMisses(c: Conn)
    requires Ready(c) && c.req.check == CheckContent && c.req.contentLength + c.checkedIdx <= c.readIdx
    ensures EffectOf(c).code == Undefined <==>
            c.startLine + c.req.contentLength < 0 ||
            (c.startLine == c.checkedIdx && c.readIdx == 2048 &&
             c.checkedIdx + c.req.contentLength == 2048)
  {
  }
}
