/** The printing half of `http_conn`: a bounded write buffer filled by formatted prints. */
module HttpResponse {
  import opened CStrings

  const WRITE_BUFFER_SIZE: nat := 1024
  const INT_MAX: int := 0x7FFF_FFFF

  /** Conversion to a 32-bit `int`. */
  function ToInt(x: int): (r: int)
    ensures -0x8000_0000 <= r <= INT_MAX && (x - r) % 0x1_0000_0000 == 0
  {
    var m := x % 0x1_0000_0000;
    if m <= INT_MAX then m else m - 0x1_0000_0000
  }

  function Digit(d: nat): char
    requires d < 10
  {
    '0' + d as char
  }

  function Decimal(n: nat): (s: string)
    ensures s != "" && forall i :: 0 <= i < |s| ==> IsDigit(s[i])
  {
    if n < 10 then [Digit(n)] else Decimal(n / 10) + [Digit(n % 10)]
  }

  /** "%d". */
  function FormatInt(n: int): string {
    if n < 0 then "-" + Decimal(-n) else Decimal(n)
  }

  function Pow10(k: nat): (p: nat)
    ensures p > 0
  {
    if k == 0 then 1 else 10 * Pow10(k - 1)
  }

  lemma {:induction false} DecimalLength(n: nat, k: nat)
    requires 0 < k && n < Pow10(k)
    ensures |Decimal(n)| <= k
  {
    if n >= 10 {
      assert k > 1 by { assert Pow10(1) == 10 * Pow10(0); }
      DecimalLength(n / 10, k - 1);
    }
  }

  lemma IntLength(n: int)
    requires -0x8000_0000 <= n <= INT_MAX
    ensures |FormatInt(n)| <= 11
  {
    assert Pow10(10) == 10_000_000_000 by {
      assert Pow10(5) == 10 * (10 * (10 * (10 * (10 * Pow10(0)))));
      assert Pow10(10) == 10 * (10 * (10 * (10 * (10 * Pow10(5)))));
    }
    DecimalLength(if n < 0 then -n else n, 10);
  }

  // ---- The texts ----

  function StatusLine(status: int, title: string): string {
    "HTTP/1.1 " + FormatInt(status) + " " + title + "\r\n"
  }

  function ContentLengthLine(n: int): string {
    "Content-Length:" + FormatInt(n) + "\r\n"
  }

  function LingerLine(linger: bool): string {
    "Connection:" + (if linger then "keep-alive" else "close") + "\r\n"
  }

  function HeaderText(n: int, linger: bool): string {
    ContentLengthLine(n) + LingerLine(linger) + "\r\n"
  }

  datatype Outcome = InternalError | BadRequest | ForbiddenRequest | FileRequest | OtherOutcome

  function Status(o: Outcome): int {
    match o
    case InternalError => 500
    case BadRequest => 404
    case ForbiddenRequest => 403
    case _ => 200
  }

  function Title(o: Outcome): string {
    match o
    case InternalError => "Internal Error"
    case BadRequest => "Not Found"
    case ForbiddenRequest => "Forbidden"
    case _ => "OK"
  }

  /** The body that is printed behind the headers. */
  function Form(o: Outcome): string {
    match o
    case InternalError => "There was an unusual problem serving the request file.\n"
    case BadRequest => "The requested file was not found on this server.\n"
    case ForbiddenRequest => "You do not have permission to get file form this server.\n"
    case _ => ""
  }

  function Truncated(s: string, n: nat): string {
    if |s| <= n then s else s[..n]
  }

  /** What is written after printing the parts one by one, up to the first that does not fit. */
  function WithParts(w: string, parts: seq<string>): string
    decreases |parts|
  {
    if parts == [] || |w| + |parts[0]| > WRITE_BUFFER_SIZE - 2 then w
    else WithParts(w + parts[0], parts[1..])
  }

  lemma ThreeParts(w: string, a: string, b: string, c: string)
    ensures var max := WRITE_BUFFER_SIZE - 2;
            WithParts(w, [a, b, c]) ==
            if |w + a| > max then w
            else if |w + a + b| > max then w + a
            else if |w + a + b + c| > max then w + a + b
            else w + a + b + c
  {
    assert [a, b, c][1..] == [b, c] && [b, c][1..] == [c] && [c][1..] == [];
    assert |w + a + b + c| <= WRITE_BUFFER_SIZE - 2 ==> WithParts(w + a + b, [c]) == w + a + b + c;
  }

  class ResponseWriter {
    const writeBuf: array<char>
    var writeIdx: nat
    var linger: bool
    var iov: seq<int>
    var bytesToSend: int

    ghost predicate Valid()
      reads this
    {
      writeBuf.Length == WRITE_BUFFER_SIZE && writeIdx <= WRITE_BUFFER_SIZE - 2
    }

    function Written(): string
      reads this, writeBuf
      requires Valid()
    {
      writeBuf[..writeIdx]
    }

    constructor (linger: bool)
      ensures Valid() && writeIdx == 0 && this.linger == linger && fresh(writeBuf)
    {
      writeBuf := new char[WRITE_BUFFER_SIZE](_ => NUL);
      writeIdx, this.linger, iov, bytesToSend := 0, linger, [], 0;
    }

    /** `vsnprintf` of the formatted text `s`: as much of it as leaves room for a NUL, and the NUL. */
    method Vsnprintf(s: string, room: nat)
      requires Valid() && writeIdx + room <= WRITE_BUFFER_SIZE
      modifies writeBuf
      ensures writeBuf[..] == if room == 0 then old(writeBuf[..])
                              else Overwrite(old(writeBuf[..]), writeIdx, Truncated(s, room - 1) + [NUL])
    {
      if room == 0 {
        return;
      }
      var bytes := Truncated(s, room - 1) + [NUL];
      ghost var was := writeBuf[..];
      for k := 0 to |bytes|
        invariant writeBuf[..] == Overwrite(was, writeIdx, bytes[..k])
      {
        OverwriteNext(was, writeIdx, bytes[..k], bytes[k]);
        assert bytes[..k + 1] == bytes[..k] + [bytes[k]];
        writeBuf[writeIdx + k] := bytes[k];
      }
      assert bytes[..|bytes|] == bytes;
    }

    method AddResponse(s: string) returns (ok: bool)
      requires Valid()
      modifies this`writeIdx, writeBuf
      ensures Valid()
      ensures ok <==> |old(Written())| + |s| <= 1022
      ensures Written() == if ok then old(Written()) + s else old(Written())
      ensures ok ==> writeBuf[writeIdx] == NUL
    {
      if writeIdx >= WRITE_BUFFER_SIZE {
        return false;
      }
      var room := WRITE_BUFFER_SIZE - 1 - writeIdx;
      Vsnprintf(s, room);
      assert Written() == old(Written());
      if |s| >= room {
        return false;
      }
      assert writeBuf[..writeIdx + |s|] == old(Written()) + s;
      writeIdx := writeIdx + |s|;
      return true;
    }

    /** Stops at the first part that does not fit and keeps those before it. */
    method AddHeaders(n: int) returns (ok: bool)
      requires Valid()
      modifies this`writeIdx, writeBuf
      ensures Valid()
      ensures ok <==> |old(Written())| + |HeaderText(n, linger)| <= WRITE_BUFFER_SIZE - 2
      ensures ok ==> Written() == old(Written()) + HeaderText(n, linger)
      ensures Written() == WithParts(old(Written()), [ContentLengthLine(n), LingerLine(linger), "\r\n"])
    {
      hide ContentLengthLine, LingerLine, WithParts;
      ghost var w := Written();
      ThreeParts(w, ContentLengthLine(n), LingerLine(linger), "\r\n");
      ok := AddResponse(ContentLengthLine(n));
      if !ok { return; }
      ok := AddResponse(LingerLine(linger));
      if !ok { return; }
      ok := AddResponse("\r\n");
      Assoc(w, ContentLengthLine(n), LingerLine(linger), "\r\n");
    }

    /** The response to an outcome; `fileSize` is the size of the requested file. An empty file takes the
        fall-through into the default case and is not answered. */
    method ProcessWrite(o: Outcome, fileSize: nat) returns (ok: bool)
      requires Valid() && writeIdx == 0
      modifies this`writeIdx, this`iov, this`bytesToSend, writeBuf
      ensures Valid() && (ok <==> Answered(o, fileSize))
      ensures ok <==> o !in {OtherOutcome, FileRequest} || (o == FileRequest && fileSize > 0)
      ensures ok ==> Written() == Answer(o, fileSize, linger)
      ensures ok && !o.FileRequest? ==> iov == [|Written()|] && bytesToSend == |Written()|
      ensures ok && o.FileRequest? ==>
                iov == [|Written()|, fileSize] && bytesToSend == ToInt(|Written()| + fileSize)
    {
      hide FileHead, ErrorResponse, ToInt;
      match o
      case FileRequest => ok := SendFile(fileSize);
      case OtherOutcome => return false;
      case _ => ok := SendError(o);
    }

    /** Status line, headers and a short page. */
    method SendError(o: Outcome) returns (ok: bool)
      requires Valid() && writeIdx == 0 && (o.InternalError? || o.BadRequest? || o.ForbiddenRequest?)
      modifies this`writeIdx, this`iov, this`bytesToSend, writeBuf
      ensures ok && Valid() && Written() == ErrorResponse(o, linger)
      ensures iov == [|Written()|] && bytesToSend == |Written()|
    {
      hide StatusLine, HeaderText, Title, Form, Status, WithParts;
      ErrorFits(o, linger);
      var a := AddResponse(StatusLine(Status(o), Title(o)));
      assert Written() == StatusLine(Status(o), Title(o));
      var b := AddHeaders(|Form(o)|);
      ok := AddResponse(Form(o));
      iov := [writeIdx];
      bytesToSend := writeIdx;
    }

    method SendFile(fileSize: nat) returns (ok: bool)
      requires Valid() && writeIdx == 0
      modifies this`writeIdx, this`iov, this`bytesToSend, writeBuf
      ensures Valid() && (ok <==> fileSize != 0)
      ensures ok ==> Written() == FileHead(fileSize, linger) && iov == [|Written()|, fileSize] &&
                     bytesToSend == ToInt(|Written()| + fileSize)
    {
      hide StatusLine, HeaderText, ToInt, WithParts;
      FileHeadFits(fileSize, linger);
      assert Written() == "";
      var a := AddResponse(StatusLine(200, "OK"));
      assert Written() == StatusLine(200, "OK");
      if fileSize != 0 {
        var b := AddHeaders(ToInt(fileSize));
        iov := [writeIdx, fileSize];
        bytesToSend := ToInt(writeIdx + fileSize);
        return true;
      }
      var page := "<html><body></body></html>";
      var b := AddHeaders(|page|);
      var c := AddResponse(page);
      return false;
    }
  }

  lemma Assoc(w: string, a: string, b: string, c: string)
    ensures ((w + a) + b) + c == w + (a + b + c)
  {
  }

  function ErrorResponse(o: Outcome, linger: bool): string {
    StatusLine(Status(o), Title(o)) + HeaderText(|Form(o)|, linger) + Form(o)
  }

  function FileHead(fileSize: nat, linger: bool): string {
    StatusLine(200, "OK") + HeaderText(ToInt(fileSize), linger)
  }

  /** Whether `process_write` answers: every error, and a file that is not empty. */
  predicate Answered(o: Outcome, fileSize: nat) {
    o.InternalError? || o.BadRequest? || o.ForbiddenRequest? || (o.FileRequest? && fileSize != 0)
  }

  /** The text in the write buffer. */
  function Answer(o: Outcome, fileSize: nat, linger: bool): string {
    if o.FileRequest? then FileHead(fileSize, linger) else ErrorResponse(o, linger)
  }

  /** The bytes sent behind that text. */
  function FilePart(o: Outcome, fileSize: nat): nat {
    if o.FileRequest? then fileSize else 0
  }

  /** The three error pages, and the first line in front of a file. */
  lemma AnswerTexts(n: nat, linger: bool)
    ensures Answer(InternalError, n, linger) ==
            "HTTP/1.1 500 Internal Error\r\n" + HeaderText(55, linger) +
            "There was an unusual problem serving the request file.\n"
    ensures Answer(BadRequest, n, linger) ==
            "HTTP/1.1 404 Not Found\r\n" + HeaderText(49, linger) +
            "The requested file was not found on this server.\n"
    ensures Answer(ForbiddenRequest, n, linger) ==
            "HTTP/1.1 403 Forbidden\r\n" + HeaderText(57, linger) +
            "You do not have permission to get file form this server.\n"
    ensures Answer(FileRequest, n, linger) == "HTTP/1.1 200 OK\r\n" + HeaderText(ToInt(n), linger)
  {
    hide HeaderText, ToInt, StatusLine, Status, Title;
    Line500();
    Line404();
    Line403();
    Line200();
    FormLengths();
  }

  lemma FormLengths()
    ensures |Form(InternalError)| == 55 && |Form(BadRequest)| == 49 && |Form(ForbiddenRequest)| == 57
  {
  }

  lemma Line500()
    ensures StatusLine(Status(InternalError), Title(InternalError)) == "HTTP/1.1 500 Internal Error\r\n"
  {
    hide Decimal;
    Hundreds(5, 0, 0);
  }

  lemma Line404()
    ensures StatusLine(Status(BadRequest), Title(BadRequest)) == "HTTP/1.1 404 Not Found\r\n"
  {
    hide Decimal;
    Hundreds(4, 0, 4);
  }

  lemma Line403()
    ensures StatusLine(Status(ForbiddenRequest), Title(ForbiddenRequest)) == "HTTP/1.1 403 Forbidden\r\n"
  {
    hide Decimal;
    Hundreds(4, 0, 3);
  }

  lemma Line200()
    ensures StatusLine(200, "OK") == "HTTP/1.1 200 OK\r\n"
  {
    hide Decimal;
    Hundreds(2, 0, 0);
  }

  lemma LastDigit(n: nat, d: nat)
    requires n > 0 && d < 10
    ensures Decimal(10 * n + d) == Decimal(n) + [Digit(d)]
  {
    assert (10 * n + d) / 10 == n && (10 * n + d) % 10 == d;
  }

  lemma Hundreds(a: nat, b: nat, c: nat)
    requires 0 < a < 10 && b < 10 && c < 10
    ensures FormatInt(10 * (10 * a + b) + c) == [Digit(a), Digit(b), Digit(c)]
  {
    LastDigit(a, b);
    LastDigit(10 * a + b, c);
    assert Decimal(a) == [Digit(a)];
  }

  lemma StatusLineLength(status: int, title: string)
    requires 0 <= status < 1000 && |title| <= 14
    ensures |StatusLine(status, title)| <= 50
  {
    IntLength(status);
  }

  lemma HeaderLength(n: int, linger: bool)
    requires -0x8000_0000 <= n <= INT_MAX
    ensures |HeaderText(n, linger)| <= 60
  {
    IntLength(n);
  }

  lemma ErrorFits(o: Outcome, linger: bool)
    requires o.InternalError? || o.BadRequest? || o.ForbiddenRequest?
    ensures |StatusLine(Status(o), Title(o))| <= 50 && |HeaderText(|Form(o)|, linger)| <= 60 && |Form(o)| <= 70
  {
    hide StatusLine, HeaderText;
    StatusLineLength(Status(o), Title(o));
    HeaderLength(|Form(o)|, linger);
  }

  lemma FileHeadFits(fileSize: nat, linger: bool)
    ensures |StatusLine(200, "OK")| <= 50 && |HeaderText(ToInt(fileSize), linger)| <= 60
  {
    hide StatusLine, HeaderText;
    StatusLineLength(200, "OK");
    HeaderLength(ToInt(fileSize), linger);
  }

  // ---- What the numbers say ----

  lemma {:induction false} DigitRunConcat(a: string, b: string, acc: nat)
    requires forall i :: 0 <= i < |a| ==> IsDigit(a[i])
    ensures DigitRun(a + b, acc) == DigitRun(b, DigitRun(a, acc))
  {
    if a != "" {
      assert (a + b)[1..] == a[1..] + b;
      DigitRunConcat(a[1..], b, 10 * acc + (a[0] - '0') as nat);
    } else {
      assert a + b == b;
    }
  }

  lemma {:induction false} DigitRunDecimal(n: nat)
    ensures DigitRun(Decimal(n), 0) == n
  {
    if n < 10 {
      assert Decimal(n)[1..] == "";
    } else {
      DigitRunDecimal(n / 10);
      DigitRunConcat(Decimal(n / 10), [Digit(n % 10)], 0);
      assert [Digit(n % 10)][1..] == "";
    }
  }

  /** `atol` skips leading white space, takes an optional sign, stops at the first character that is no
      digit, and saturates. */
  lemma AtolText(ws: string, n: int, rest: string)
    requires forall i :: 0 <= i < |ws| ==> ws[i] == ' ' || 9 <= ws[i] as int <= 13
    requires rest != "" ==> !IsDigit(rest[0])
    ensures Atol(ws + FormatInt(n) + rest) == ClampLong(n)
  {
    assert forall i :: 0 <= i < |ws| ==> IsSpace(ws[i]);
    hide Atol, ClampLong, Decimal;
    if n < 0 {
      AtolMinus(ws, -n, rest);
    } else {
      AtolDigits(ws, n, rest);
    }
  }

  lemma AtolMinus(ws: string, n: nat, rest: string)
    requires (forall i :: 0 <= i < |ws| ==> IsSpace(ws[i])) && (rest != "" ==> !IsDigit(rest[0]))
    ensures Atol(ws + ("-" + Decimal(n)) + rest) == ClampLong(0 - n as int)
  {
    hide Decimal, DigitRun, SpaceSpan;
    var t := "-" + (Decimal(n) + rest);
    RunStops(n, rest);
    SkipSpace(ws, t);
    assert ws + ("-" + Decimal(n)) + rest == ws + t;
    assert t[1..] == Decimal(n) + rest;
  }

  lemma AtolDigits(ws: string, n: nat, rest: string)
    requires (forall i :: 0 <= i < |ws| ==> IsSpace(ws[i])) && (rest != "" ==> !IsDigit(rest[0]))
    ensures Atol(ws + Decimal(n) + rest) == ClampLong(n)
  {
    hide Decimal, DigitRun, SpaceSpan;
    var t := Decimal(n) + rest;
    RunStops(n, rest);
    assert IsDigit(t[0]);
    SkipSpace(ws, t);
    assert ws + Decimal(n) + rest == ws + t;
  }

  lemma AtolPlus(ws: string, n: nat, rest: string)
    requires (forall i :: 0 <= i < |ws| ==> IsSpace(ws[i])) && (rest != "" ==> !IsDigit(rest[0]))
    ensures Atol(ws + ("+" + FormatInt(n)) + rest) == ClampLong(n)
  {
    hide Decimal, DigitRun, SpaceSpan;
    var t := "+" + (Decimal(n) + rest);
    RunStops(n, rest);
    SkipSpace(ws, t);
    assert ws + ("+" + Decimal(n)) + rest == ws + t;
    assert t[1..] == Decimal(n) + rest;
  }

  lemma SkipSpace(ws: string, t: string)
    requires (forall i :: 0 <= i < |ws| ==> IsSpace(ws[i])) && t != "" && !IsSpace(t[0])
    ensures (ws + t)[SpaceSpan(ws + t)..] == t
  {
    var s := ws + t;
    var k := SpaceSpan(s);
    assert s[|ws|] == t[0];
    assert k < |s| ==> !IsSpace(s[k]);
    assert k == |ws|;
  }

  lemma RunStops(n: nat, rest: string)
    requires rest != "" ==> !IsDigit(rest[0])
    ensures DigitRun(Decimal(n) + rest, 0) == n
  {
    DigitRunConcat(Decimal(n), rest, 0);
    DigitRunDecimal(n);
  }

  lemma AtolFormat(n: int)
    requires LONG_MIN <= n <= LONG_MAX
    ensures Atol(FormatInt(n)) == n
  {
    AtolText("", n, "");
    assert "" + FormatInt(n) + "" == FormatInt(n);
  }

  /** For a file the printed Content-Length is the file's size exactly if the size fits an `int`, and
      `bytes_to_send` is the sum of both parts exactly if that sum does. */
  lemma FileFraming(fileSize: nat, linger: bool)
    ensures Atol(FormatInt(ToInt(fileSize))) == fileSize <==> fileSize <= INT_MAX
    ensures var head := |FileHead(fileSize, linger)|;
            ToInt(head + fileSize) == head + fileSize <==> head + fileSize <= INT_MAX
  {
    AtolFormat(ToInt(fileSize));
  }
}
