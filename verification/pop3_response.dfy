/** The POP3 server response (`src/pop3/response.rs`): a status indicator,
    an optional message, and the line terminator chosen by whether the
    message spans several lines. The codec does no dot-stuffing. */
module Pop3Response {
  import opened Wrappers
  import opened Bytes

  datatype Status = Positive | Negative

  datatype Response = Response(status: Status, message: seq<byte>)

  /** `POP3ResponseErr`. */
  datatype ResponseErr = InvalidSyntax | IncompleteResponse

  const OK: seq<byte> := [43, 79, 75]          // "+OK"
  const ERR: seq<byte> := [45, 69, 82, 82]     // "-ERR"
  const DOT: byte := 46                        // "."

  /** The multi-line terminator CRLF "." CRLF. */
  const MULTILINE_END: seq<byte> := [CR, LF, DOT, CR, LF]

  function Indicator(s: Status): (r: seq<byte>)
    ensures |r| == 3 || |r| == 4
    ensures r[0] == (if s.Positive? then 43 else 45)
  {
    match s
    case Positive => OK
    case Negative => ERR
  }

  // ---------------------------------------------------------------------
  // contains_crlf
  // ---------------------------------------------------------------------

  /** An octet pair CR LF starts at position `i` of `s`. */
  predicate CrlfAt(s: seq<byte>, i: int) {
    0 <= i && i + 1 < |s| && s[i] == CR && s[i + 1] == LF
  }

  /** Whether `s` holds the pair CR LF anywhere; `ContainsCrlfScan` is
      the search the source performs. */
  predicate ContainsCrlf(s: seq<byte>) {
    exists i | 0 <= i < |s| :: CrlfAt(s, i)
  }

  /** The scan of `contains_crlf`: every window of two octets in turn. */
  method ContainsCrlfScan(bytes: seq<byte>) returns (found: bool)
    ensures |bytes| < 2 ==> !found
    ensures found <==> exists i :: CrlfAt(bytes, i)
  {
    if |bytes| < 2 {
      return false;
    }
    for i := 0 to |bytes| - 1
      invariant forall j :: 0 <= j < i ==> !CrlfAt(bytes, j)
    {
      if bytes[i..i + 2] == CRLF {
        assert CrlfAt(bytes, i);
        return true;
      }
    }
    return false;
  }

  // ---------------------------------------------------------------------
  // Encoding
  // ---------------------------------------------------------------------

  /** The status indicator, then one space and the message when there is
      a message. */
  function StatusLine(r: Response): (line: seq<byte>)
    ensures StartsWith(line, Indicator(r.status))
    ensures |r.message| == 0 <==> line == Indicator(r.status)
    ensures |r.message| > 0 ==> line[|Indicator(r.status)|] == SP
  {
    var ind := Indicator(r.status);
    if |r.message| != 0 then ind + [SP] + r.message else ind
  }

  /** The terminator `From<POP3Response> for Bytes` chooses. */
  function Terminator(message: seq<byte>): seq<byte> {
    if ContainsCrlf(message) then MULTILINE_END else CRLF
  }

  /** `From<POP3Response> for Bytes`. */
  function Encode(r: Response): (e: seq<byte>)
    ensures StartsWith(e, Indicator(r.status))
    ensures ContainsCrlf(r.message) ==> EndsWith(e, MULTILINE_END)
    ensures !ContainsCrlf(r.message) ==> EndsWith(e, CRLF)
    ensures |r.message| == 0 ==> e == Indicator(r.status) + Terminator(r.message)
    ensures |r.message| > 0 ==>
              |e| > |Indicator(r.status)| + |r.message| &&
              e[..|Indicator(r.status)| + 1 + |r.message|] == Indicator(r.status) + [SP] + r.message
  {
    var line := StatusLine(r);
    var e := line + Terminator(r.message);
    assert e[..|Indicator(r.status)|] == line[..|Indicator(r.status)|];
    e
  }

  // ---------------------------------------------------------------------
  // Decoding
  // ---------------------------------------------------------------------

  /** The line `b` opens with the indicator of `s`, followed by nothing or
      by a space. */
  predicate Introduces(b: seq<byte>, s: Status) {
    var ind := Indicator(s);
    StartsWith(b, ind) && (|b| == |ind| || b[|ind|] == SP)
  }

  /** The line `b` spells response `r`: its status line, or, for an empty
      message, the indicator followed by a lone space. */
  predicate Renders(b: seq<byte>, r: Response) {
    b == StatusLine(r) || (|r.message| == 0 && b == Indicator(r.status) + [SP])
  }

  /** The status and message parsing shared by `parse_oneline` and
      `parse_multiline`, applied to what precedes the terminator. */
  function ParseStatusLine(b: seq<byte>): (r: Result<Response, ResponseErr>)
    ensures r.Success? <==> Introduces(b, Positive) || Introduces(b, Negative)
    ensures r.Failure? ==> r.error == InvalidSyntax
    ensures r.Success? ==> Renders(b, r.value)
  {
    if |b| >= 3 && b[..3] == OK then
      MessageAfter(b, Positive)
    else if |b| >= 4 && b[..4] == ERR then
      MessageAfter(b, Negative)
    else
      Failure(InvalidSyntax)
  }

  /** After the indicator: nothing, or one space and the message. */
  function MessageAfter(b: seq<byte>, s: Status): (r: Result<Response, ResponseErr>)
    requires StartsWith(b, Indicator(s))
    ensures r.Success? <==> Introduces(b, s)
    ensures r.Failure? ==> r.error == InvalidSyntax
    ensures r.Success? ==> r.value.status == s && Renders(b, r.value)
  {
    var start := |Indicator(s)| + 1;
    if |b| == start - 1 then
      assert b == Indicator(s) + [];
      Success(Response(s, []))
    else if b[start - 1] != SP then
      Failure(InvalidSyntax)
    else
      assert b == b[..start - 1] + [SP] + b[start..];
      Success(Response(s, b[start..]))
  }

  /** `POP3Response::parse_oneline`. */
  function ParseOneline(bytes: seq<byte>): (r: Result<Response, ResponseErr>)
    ensures r == Failure(IncompleteResponse) <==> !EndsWith(bytes, CRLF)
    ensures r == Failure(InvalidSyntax) <==>
              EndsWith(bytes, CRLF) && !Introduces(bytes[..|bytes| - 2], Positive)
                                    && !Introduces(bytes[..|bytes| - 2], Negative)
    ensures r.Success? ==> exists line :: Renders(line, r.value) && bytes == line + CRLF
  {
    if |bytes| >= 2 && bytes[|bytes| - 2..] == CRLF then
      var line := bytes[..|bytes| - 2];
      assert bytes == line + CRLF;
      ParseStatusLine(line)
    else
      Failure(IncompleteResponse)
  }

  /** `POP3Response::parse_multiline`: only the final terminator is
      removed; lines that begin with "." are kept as they are. */
  function ParseMultiline(bytes: seq<byte>): (r: Result<Response, ResponseErr>)
    ensures r == Failure(IncompleteResponse) <==> !EndsWith(bytes, MULTILINE_END)
    ensures r == Failure(InvalidSyntax) <==>
              EndsWith(bytes, MULTILINE_END) && !Introduces(bytes[..|bytes| - 5], Positive)
                                             && !Introduces(bytes[..|bytes| - 5], Negative)
    ensures r.Success? ==> exists line :: Renders(line, r.value) && bytes == line + MULTILINE_END
  {
    if |bytes| >= 5 && bytes[|bytes| - 5..] == MULTILINE_END then
      var line := bytes[..|bytes| - 5];
      assert bytes == line + MULTILINE_END;
      ParseStatusLine(line)
    else
      Failure(IncompleteResponse)
  }

  // ---------------------------------------------------------------------
  // Properties of the codec
  // ---------------------------------------------------------------------

  /** Every status line is accepted and gives back its response. */
  lemma ParseStatusLineComplete(r: Response)
    ensures ParseStatusLine(StatusLine(r)) == Success(r)
  {
    var line := StatusLine(r);
    var ind := Indicator(r.status);
    if |r.message| > 0 {
      assert line[|ind| + 1..] == r.message;
    }
    if r.status.Negative? {
      assert line[..3] != OK by { assert line[0] == 45; }
    }
  }

  /** A message without CR LF travels on one line. */
  lemma OnelineRoundTrip(r: Response)
    requires !ContainsCrlf(r.message)
    ensures ParseOneline(Encode(r)) == Success(r)
  {
    var e := Encode(r);
    assert e[..|e| - 2] == StatusLine(r);
    ParseStatusLineComplete(r);
  }

  /** A message with a CR LF travels as a multi-line response. */
  lemma MultilineRoundTrip(r: Response)
    requires ContainsCrlf(r.message)
    ensures ParseMultiline(Encode(r)) == Success(r)
  {
    var e := Encode(r);
    assert e[..|e| - 5] == StatusLine(r);
    ParseStatusLineComplete(r);
  }

  /** The multi-line terminator closes the encoding exactly when the
      message holds a CR LF: a one-line encoding never ends in it. */
  lemma EncodeTerminatorIff(r: Response)
    ensures EndsWith(Encode(r), MULTILINE_END) <==> ContainsCrlf(r.message)
  {
    var e := Encode(r);
    var line := StatusLine(r);
    var m := r.message;
    if !ContainsCrlf(m) {
      // The octets that would have to be CR LF before the final "." CR LF
      // are the last-but-two and last-but-one of the status line.
      assert e == line + CRLF;
      var k := |line|;
      assert !(line[k - 3] == CR && line[k - 2] == LF) by {
        if |m| == 0 {
          assert line == Indicator(r.status);
        } else if |m| < 3 {
          assert line == Indicator(r.status) + [SP] + m;
        } else {
          assert line == Indicator(r.status) + [SP] + m;
          assert !CrlfAt(m, |m| - 3);
        }
      }
      assert e[|e| - 5..][0] == line[k - 3] && e[|e| - 5..][1] == line[k - 2];
    }
  }

  /** Distinct responses have distinct encodings. */
  lemma EncodeInjective(r1: Response, r2: Response)
    requires Encode(r1) == Encode(r2)
    ensures r1 == r2
  {
    var c1, c2 := ContainsCrlf(r1.message), ContainsCrlf(r2.message);
    EncodeTerminatorIff(r1);
    EncodeTerminatorIff(r2);
    if c1 {
      MultilineRoundTrip(r1);
      MultilineRoundTrip(r2);
    } else {
      OnelineRoundTrip(r1);
      OnelineRoundTrip(r2);
    }
  }

  /** A one-line frame is decoded from what precedes its CR LF. */
  lemma ParseOnelineLine(line: seq<byte>)
    ensures ParseOneline(line + CRLF) == ParseStatusLine(line)
  {
    var b := line + CRLF;
    assert b[..|b| - 2] == line;
  }

  /** A multi-line frame is decoded from what precedes its terminator. */
  lemma ParseMultilineLine(line: seq<byte>)
    ensures ParseMultiline(line + MULTILINE_END) == ParseStatusLine(line)
  {
    var b := line + MULTILINE_END;
    assert b[..|b| - 5] == line;
  }

  /** A message without a CR octet holds no CR LF. */
  lemma NoCarriageReturn(m: seq<byte>)
    requires forall i :: 0 <= i < |m| ==> m[i] != CR
    ensures !ContainsCrlf(m)
  {
  }

  // ---------------------------------------------------------------------
  // The unit tests of the source, as lemmas
  // ---------------------------------------------------------------------

  // "+OK\r\n" and "-ERR\r\n" carry no message
  lemma ParseOnelineBare()
    ensures ParseOneline([43, 79, 75, 13, 10]) == Success(Response(Positive, []))
    ensures ParseOneline([45, 69, 82, 82, 13, 10]) == Success(Response(Negative, []))
  {
    OnelineRoundTrip(Response(Positive, []));
    OnelineRoundTrip(Response(Negative, []));
  }

  // "+OK Hello, world!\r\n"
  lemma ParseOnelineMessage()
    ensures ParseOneline([43, 79, 75, 32, 72, 101, 108, 108, 111, 44, 32, 119, 111, 114, 108, 100, 33, 13, 10])
            == Success(Response(Positive, [72, 101, 108, 108, 111, 44, 32, 119, 111, 114, 108, 100, 33]))
  {
    var m := [72, 101, 108, 108, 111, 44, 32, 119, 111, 114, 108, 100, 33];
    assert [43, 79, 75, 32, 72, 101, 108, 108, 111, 44, 32, 119, 111, 114, 108, 100, 33, 13, 10] == OK + [SP] + m + CRLF;
    ParseOnelineLine(OK + [SP] + m);
    ParseStatusLineComplete(Response(Positive, m));
  }

  /** The message of the source's multi-line test, whose fifth line
      starts with ".". */
  const DOT_LINE_MESSAGE: seq<byte> := [84, 104, 105, 115, 13, 10, 105, 115, 13, 10, 97, 13, 10, 109, 117, 108, 116, 105, 46, 108, 105, 110, 101, 13, 10, 46, 102, 13, 10, 109, 101, 115, 115, 97, 103, 101]

  // "+OK This\r\nis\r\na\r\nmulti.line\r\n.f\r\nmessage\r\n.\r\n": a line that
  // starts with "." stays as it is, since there is no dot-stuffing.
  lemma ParseMultilineDotLine()
    ensures ParseMultiline(OK + [SP] + DOT_LINE_MESSAGE + MULTILINE_END)
            == Success(Response(Positive, DOT_LINE_MESSAGE))
    ensures DOT_LINE_MESSAGE[23..26] == [CR, LF, DOT]
  {
    ParseMultilineLine(OK + [SP] + DOT_LINE_MESSAGE);
    ParseStatusLineComplete(Response(Positive, DOT_LINE_MESSAGE));
  }

  // "+ok\r\n" and "-eRr\r\n": the status is case-sensitive
  lemma ParseOnelineRejects()
    ensures ParseOneline([43, 111, 107, 13, 10]) == Failure(InvalidSyntax)
    ensures ParseOneline([45, 101, 82, 114, 13, 10]) == Failure(InvalidSyntax)
  {
    ParseOnelineLine([43, 111, 107]);
    ParseOnelineLine([45, 101, 82, 114]);
  }

  // "+OKHello, World\r\n": a message must follow a space
  lemma ParseOnelineGlued()
    ensures ParseOneline([43, 79, 75, 72, 101, 108, 108, 111, 44, 32, 87, 111, 114, 108, 100, 13, 10]) == Failure(InvalidSyntax)
  {
    ParseOnelineLine([43, 79, 75, 72, 101, 108, 108, 111, 44, 32, 87, 111, 114, 108, 100]);
  }

  // "+OK 2 messages\r\n1 200\r\n 2 200" lacks the multi-line terminator
  lemma ParseMultilineUnterminated()
    ensures ParseMultiline([43, 79, 75, 32, 50, 32, 109, 101, 115, 115, 97, 103, 101, 115, 13, 10, 49, 32, 50, 48, 48, 13, 10, 32, 50, 32, 50, 48, 48]) == Failure(IncompleteResponse)
  {
  }

  const TEST_MESSAGE: seq<byte> := [116, 104, 105, 115, 32, 105, 115, 32, 97, 32, 116, 101, 115, 116]
  const TEST_MULTILINE_MESSAGE: seq<byte> := [116, 104, 105, 115, 32, 105, 115, 32, 97, 13, 10, 109, 117, 108, 116, 105, 108, 105, 110, 101, 32, 116, 101, 115, 116]

  // "this is a test" gives "+OK this is a test\r\n"
  lemma EncodeOneline()
    ensures Encode(Response(Positive, TEST_MESSAGE)) == OK + [SP] + TEST_MESSAGE + CRLF
  {
    NoCarriageReturn(TEST_MESSAGE);
  }

  // "this is a\r\nmultiline test" gives "-ERR this is a\r\nmultiline test\r\n.\r\n"
  lemma EncodeMultiline()
    ensures Encode(Response(Negative, TEST_MULTILINE_MESSAGE))
            == ERR + [SP] + TEST_MULTILINE_MESSAGE + MULTILINE_END
  {
    assert CrlfAt(TEST_MULTILINE_MESSAGE, 9);
  }
}
