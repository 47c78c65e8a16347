/** Parsing an Internet message (`src/database/imf/mail.rs`): the header
    section and the body are split at the first blank line, folded header
    lines are unfolded as section 2.2.3 of RFC 5322 describes, and each
    header is split at its first colon into a name and a body. */
module ImfMail {
  import opened Wrappers
  import opened Str

  datatype MailParseError = MailParseError

  /** `Mail`: the headers by trimmed name, and the body. */
  datatype Mail = Mail(headers: map<string, string>, content: string)

  /** The line break of the message format, as text. */
  const LINE_BREAK: string := "\r\n"
  const BLANK_LINE: string := "\r\n\r\n"

  /** `Mail::content_len`: the body's length in UTF-8 octets. */
  function ContentLen(m: Mail): (n: nat)
    ensures n == |Str.Encode(m.content)|
    ensures |m.content| <= n <= 4 * |m.content|
  {
    Utf8Length(m.content)
  }

  // ---------------------------------------------------------------------
  // Unfolding
  // ---------------------------------------------------------------------

  /** A line with no leading whitespace begins a new header. */
  predicate StartsEntry(line: string) {
    |line| == 0 || !IsWhitespace(line[0])
  }

  /** The number of lines that begin a header. */
  function CountEntries(lines: seq<string>): nat {
    if |lines| == 0 then 0
    else CountEntries(lines[..|lines| - 1]) + (if StartsEntry(lines[|lines| - 1]) then 1 else 0)
  }

  /** All the lines run together. */
  function Concat(lines: seq<string>): string {
    if |lines| == 0 then [] else Concat(lines[..|lines| - 1]) + lines[|lines| - 1]
  }

  /** `unfold` on the lines of the header section: a line that
      `trim_start` leaves alone begins a new header and is pushed; any other
      line is appended, leading whitespace and all, to the last header; a
      continuation line before any header is `MailParseError`. */
  function UnfoldLines(lines: seq<string>): Result<seq<string>, MailParseError> {
    if |lines| == 0 then Success([])
    else
      match UnfoldLines(lines[..|lines| - 1])
      case Failure(e) => Failure(e)
      case Success(out) =>
        var line := lines[|lines| - 1];
        if TrimStart(line) == line then Success(out + [line])
        else if |out| == 0 then Failure(MailParseError)
        else Success(out[..|out| - 1] + [out[|out| - 1] + line])
  }

  /** Unfolding fails exactly when the first line is a continuation. */
  lemma {:induction false} UnfoldLinesFails(lines: seq<string>)
    ensures UnfoldLines(lines).Failure? <==> |lines| > 0 && !StartsEntry(lines[0])
    ensures UnfoldLines(lines).Success? && |lines| > 0 ==> |UnfoldLines(lines).value| > 0
  {
    if |lines| > 0 {
      var init := lines[..|lines| - 1];
      UnfoldLinesFails(init);
      TrimStartUnchanged(lines[|lines| - 1]);
      if |init| > 0 {
        assert init[0] == lines[0];
      }
    }
  }

  /** There are as many unfolded headers as lines that begin one. */
  lemma {:induction false} UnfoldLinesCount(lines: seq<string>)
    requires UnfoldLines(lines).Success?
    ensures |UnfoldLines(lines).value| == CountEntries(lines)
  {
    if |lines| > 0 {
      var init := lines[..|lines| - 1];
      UnfoldLinesCount(init);
      TrimStartUnchanged(lines[|lines| - 1]);
    }
  }

  /** A line that begins a header is pushed as it is. */
  lemma UnfoldPush(lines: seq<string>, line: string)
    requires UnfoldLines(lines).Success? && StartsEntry(line)
    ensures UnfoldLines(lines + [line]) == Success(UnfoldLines(lines).value + [line])
  {
    assert (lines + [line])[..|lines|] == lines;
    TrimStartUnchanged(line);
  }

  /** A continuation line is appended to the header before it. */
  lemma UnfoldJoin(lines: seq<string>, line: string)
    requires UnfoldLines(lines).Success? && |UnfoldLines(lines).value| > 0 && !StartsEntry(line)
    ensures var out := UnfoldLines(lines).value;
            UnfoldLines(lines + [line]) == Success(out[..|out| - 1] + [out[|out| - 1] + line])
  {
    assert (lines + [line])[..|lines|] == lines;
    TrimStartUnchanged(line);
  }

  lemma ConcatLast(out: seq<string>)
    requires |out| > 0
    ensures Concat(out) == Concat(out[..|out| - 1]) + out[|out| - 1]
  {
  }

  /** Unfolding neither loses nor adds a character: only the line breaks
      between a header and its continuations go. */
  lemma {:induction false} UnfoldLinesConcat(lines: seq<string>)
    requires UnfoldLines(lines).Success?
    ensures Concat(UnfoldLines(lines).value) == Concat(lines)
  {
    if |lines| > 0 {
      var init := lines[..|lines| - 1];
      var line := lines[|lines| - 1];
      UnfoldLinesConcat(init);
      var out := UnfoldLines(init).value;
      var r := UnfoldLines(lines).value;
      if TrimStart(line) == line {
        assert r[..|r| - 1] == out;
      } else {
        assert r[..|r| - 1] == out[..|out| - 1];
        ConcatLast(out);
      }
    }
  }

  /** What `unfold`'s loop does as written, in a build that checks
      arithmetic overflow: a continuation line before any header computes
      the index `out.len() - 1` of an empty vector, which underflows and
      panics before the `MailParseError` path is reached. */
  datatype Unfolded = Unfolded(entries: seq<string>) | Rejected | Panicked

  function UnfoldLinesAsWritten(lines: seq<string>): Unfolded {
    if |lines| == 0 then Unfolded([])
    else
      match UnfoldLinesAsWritten(lines[..|lines| - 1])
      case Unfolded(out) =>
        var line := lines[|lines| - 1];
        if TrimStart(line) == line then Unfolded(out + [line])
        else if |out| - 1 < 0 then Panicked
        else Unfolded(out[..|out| - 1] + [out[|out| - 1] + line])
      case other => other
  }

  /** The code as written agrees with the corrected `UnfoldLines` except
      that it panics where `UnfoldLines` reports `MailParseError`; its own
      error path is never taken. */
  lemma {:induction false} UnfoldAsWrittenPanics(lines: seq<string>)
    ensures UnfoldLines(lines).Success? ==> UnfoldLinesAsWritten(lines) == Unfolded(UnfoldLines(lines).value)
    ensures UnfoldLines(lines).Failure? <==> UnfoldLinesAsWritten(lines) == Panicked
    ensures UnfoldLinesAsWritten(lines) != Rejected
  {
    if |lines| > 0 {
      UnfoldAsWrittenPanics(lines[..|lines| - 1]);
    }
  }

  /** A header section that opens with a folded line panics as written. */
  lemma LeadingContinuationPanics()
    ensures UnfoldLinesAsWritten([" A: b"]) == Panicked
    ensures UnfoldLines([" A: b"]) == Failure(MailParseError)
  {
    assert [" A: b"][..0] == [];
    assert TrimStart(" A: b") != " A: b";
  }

  /** `unfold`. */
  function Unfold(headers: string): Result<seq<string>, MailParseError> {
    UnfoldLines(Str.Split(headers, LINE_BREAK))
  }

  /** The first piece of a split is the text before the first separator. */
  lemma FirstPiece(s: string)
    ensures OccursAt(s, LINE_BREAK, 0) ==> Str.Split(s, LINE_BREAK)[0] == []
    ensures !OccursAt(s, LINE_BREAK, 0) && |s| > 0 ==>
              |Str.Split(s, LINE_BREAK)[0]| > 0 && Str.Split(s, LINE_BREAK)[0][0] == s[0]
  {
    match SplitOnce(s, LINE_BREAK)
    case None =>
    case Some((before, after)) =>
      assert Str.Split(s, LINE_BREAK)[0] == before;
      if |before| == 0 {
        assert s == LINE_BREAK + after;
        assert s[0..2] == LINE_BREAK;
      } else {
        assert s[0] == before[0];
      }
  }

  /** `unfold` fails exactly when the header section begins with
      whitespace other than a line break. */
  lemma UnfoldFails(headers: string)
    ensures Unfold(headers).Failure? <==>
              |headers| > 0 && IsWhitespace(headers[0]) && !OccursAt(headers, LINE_BREAK, 0)
  {
    FirstPiece(headers);
    UnfoldLinesFails(Str.Split(headers, LINE_BREAK));
  }

  /** A header and its one continuation line unfold into one header. */
  lemma UnfoldFolded(a: string, b: string)
    requires StartsEntry(a) && !StartsEntry(b)
    ensures UnfoldLines([a, b]) == Success([a + b])
  {
    UnfoldOne(a);
    UnfoldJoinOne(a, b);
    assert [a] + [b] == [a, b];
  }

  /** A single header line unfolds to itself. */
  lemma UnfoldOne(a: string)
    requires StartsEntry(a)
    ensures UnfoldLines([a]) == Success([a])
  {
    var none: seq<string> := [];
    UnfoldPush(none, a);
    assert none + [a] == [a];
  }

  /** A continuation after a single header joins it. */
  lemma UnfoldJoinOne(a: string, b: string)
    requires UnfoldLines([a]) == Success([a]) && !StartsEntry(b)
    ensures UnfoldLines([a] + [b]) == Success([a + b])
  {
    var none: seq<string> := [];
    assert none + [a] == [a];
    UnfoldJoinTo([a], b, none, a);
    assert none + [a + b] == [a + b];
  }

  /** A continuation line is appended to the last header so far. */
  lemma UnfoldJoinTo(lines: seq<string>, line: string, init: seq<string>, last: string)
    requires UnfoldLines(lines) == Success(init + [last]) && !StartsEntry(line)
    ensures UnfoldLines(lines + [line]) == Success(init + [last + line])
  {
    var out := init + [last];
    UnfoldJoin(lines, line);
    assert out[..|out| - 1] == init;
  }

  /** The first example of the source's unfolding test. */
  lemma UnfoldExample(a: string, b: string)
    requires a == "Subject: This is" && b == " a test."
    ensures UnfoldLines([a, b]) == Success([a + b])
  {
    UnfoldFolded(a, b);
  }

  /** The second example: a continuation ends at the next header, and a
      tab inside a line is not a fold. */
  lemma UnfoldExampleTwo(a: string, b: string, c: string)
    requires a == "Subject: This is" && b == " a test. " && c == "Foo: Bar\tBiz"
    ensures UnfoldLines([a, b, c]) == Success([a + b, c])
  {
    UnfoldFoldedThen(a, b, c);
  }

  /** A folded header followed by another header. */
  lemma UnfoldFoldedThen(a: string, b: string, c: string)
    requires StartsEntry(a) && !StartsEntry(b) && StartsEntry(c)
    ensures UnfoldLines([a, b, c]) == Success([a + b, c])
  {
    UnfoldFolded(a, b);
    UnfoldPushTo([a, b], c, [a + b]);
    UnfoldThreeDisplay(a, b, c);
  }

  /** The same unfolding with the appended lines written as displays. */
  lemma UnfoldThreeDisplay(a: string, b: string, c: string)
    requires UnfoldLines([a, b] + [c]) == Success([a + b] + [c])
    ensures UnfoldLines([a, b, c]) == Success([a + b, c])
  {
    assert [a, b] + [c] == [a, b, c];
    assert [a + b] + [c] == [a + b, c];
  }

  /** A line that begins a header is pushed after what came before. */
  lemma UnfoldPushTo(lines: seq<string>, line: string, out: seq<string>)
    requires UnfoldLines(lines) == Success(out) && StartsEntry(line)
    ensures UnfoldLines(lines + [line]) == Success(out + [line])
  {
    UnfoldPush(lines, line);
  }

  // ---------------------------------------------------------------------
  // The header map
  // ---------------------------------------------------------------------

  predicate HasColon(header: string) {
    ':' in header
  }

  /** The trimmed name and body of a header, split at its first colon. */
  function Field(header: string): (r: Option<(string, string)>)
    ensures r.Some? <==> HasColon(header)
  {
    match SplitOnce(header, ":")
    case Some((name, body)) => Some((Trim(name), Trim(body)))
    case None =>
      assert forall j | 0 <= j < |header| :: header[j] != ':' by {
        forall j | 0 <= j < |header|
          ensures header[j] != ':'
        {
          assert !OccursAt(header, ":", j);
          assert header[j..j + 1] == [header[j]];
        }
      }
      None
  }

  /** The fields of the headers, in order. */
  function Fields(headers: seq<string>): (r: seq<Option<(string, string)>>)
    ensures |r| == |headers|
    ensures forall k :: 0 <= k < |headers| ==> r[k] == Field(headers[k])
  {
    seq(|headers|, k requires 0 <= k < |headers| => Field(headers[k]))
  }

  /** The loop of `try_from` that fills the header map: a header with no
      colon is `MailParseError`, a later header replaces an earlier one
      of the same name. */
  function Insert(fields: seq<Option<(string, string)>>): Result<map<string, string>, MailParseError> {
    if |fields| == 0 then Success(map[])
    else
      match Insert(fields[..|fields| - 1])
      case Failure(e) => Failure(e)
      case Success(m) =>
        match fields[|fields| - 1]
        case None => Failure(MailParseError)
        case Some((name, body)) => Success(m[name := body])
  }

  function HeaderMap(headers: seq<string>): Result<map<string, string>, MailParseError> {
    Insert(Fields(headers))
  }

  /** The map is built exactly when every header has a field. */
  lemma {:induction false} InsertFails(fields: seq<Option<(string, string)>>)
    ensures Insert(fields).Success? <==> forall k :: 0 <= k < |fields| ==> fields[k].Some?
  {
    if |fields| > 0 {
      var init := fields[..|fields| - 1];
      InsertFails(init);
      assert forall k :: 0 <= k < |init| ==> init[k] == fields[k];
    }
  }

  /** The names in the map are the names of the fields. */
  lemma {:induction false} InsertKeys(fields: seq<Option<(string, string)>>, n: string)
    requires Insert(fields).Success?
    ensures n in Insert(fields).value <==>
              exists k :: 0 <= k < |fields| && fields[k].Some? && fields[k].value.0 == n
  {
    if |fields| > 0 {
      var init := fields[..|fields| - 1];
      InsertKeys(init, n);
      assert forall k :: 0 <= k < |init| ==> init[k] == fields[k];
    }
  }

  /** A field with the name `n`. */
  predicate Names(field: Option<(string, string)>, n: string) {
    field.Some? && field.value.0 == n
  }

  /** The map holds, for each name, the body of the last field with it. */
  lemma {:induction false} InsertLastWins(fields: seq<Option<(string, string)>>, k: nat)
    requires Insert(fields).Success? && k < |fields| && fields[k].Some?
    requires forall j :: k < j < |fields| ==> !Names(fields[j], fields[k].value.0)
    ensures fields[k].value.0 in Insert(fields).value
    ensures Insert(fields).value[fields[k].value.0] == fields[k].value.1
  {
    var init := fields[..|fields| - 1];
    assert Insert(init).Success?;
    if k < |fields| - 1 {
      assert forall j :: k < j < |init| ==> init[j] == fields[j];
      InsertLastWins(init, k);
    }
  }

  /** The header map is built exactly when every header has a colon. */
  lemma HeaderMapFails(headers: seq<string>)
    ensures HeaderMap(headers).Success? <==> forall k :: 0 <= k < |headers| ==> HasColon(headers[k])
  {
    InsertFails(Fields(headers));
  }

  /** The names in the map are the trimmed names of the headers. */
  lemma HeaderMapKeys(headers: seq<string>, n: string)
    requires HeaderMap(headers).Success?
    ensures n in HeaderMap(headers).value <==>
              exists k :: 0 <= k < |headers| && Field(headers[k]).Some? && Field(headers[k]).value.0 == n
  {
    var fields := Fields(headers);
    InsertKeys(fields, n);
    if n in HeaderMap(headers).value {
      var k :| 0 <= k < |fields| && fields[k].Some? && fields[k].value.0 == n;
      assert Field(headers[k]) == fields[k];
    }
  }

  /** Of several headers with the same name, the last one's body is kept. */
  lemma LastHeaderWins(headers: seq<string>, k: nat)
    requires HeaderMap(headers).Success? && k < |headers| && HasColon(headers[k])
    requires forall j :: k < j < |headers| ==> !Names(Field(headers[j]), Field(headers[k]).value.0)
    ensures Field(headers[k]).value.0 in HeaderMap(headers).value
    ensures HeaderMap(headers).value[Field(headers[k]).value.0] == Field(headers[k]).value.1
  {
    InsertLastWins(Fields(headers), k);
  }

  // ---------------------------------------------------------------------
  // The message
  // ---------------------------------------------------------------------

  /** The header section and the body: split at the first blank line, or,
      with no blank line, the whole input trimmed and an empty body. */
  function Sections(s: string): (r: (string, string))
    ensures SplitOnce(s, BLANK_LINE).Some? ==> s == r.0 + BLANK_LINE + r.1
    ensures SplitOnce(s, BLANK_LINE).Some? ==> forall j :: 0 <= j < |r.0| ==> !OccursAt(s, BLANK_LINE, j)
    ensures SplitOnce(s, BLANK_LINE).None? ==> r == (Trim(s), [])
  {
    match SplitOnce(s, BLANK_LINE)
    case Some(v) => v
    case None => (Trim(s), [])
  }

  /** `Mail::try_from(String)`. */
  function ParseMail(s: string): Result<Mail, MailParseError> {
    var (headerSection, content) := Sections(s);
    var entries :- Unfold(headerSection);
    var headers :- HeaderMap(entries);
    Success(Mail(headers, content))
  }

  /** A parsed message has at least one header: the header section always
      yields at least one line, and every line must become a field. */
  lemma ParseMailHasHeaders(s: string)
    ensures ParseMail(s).Success? ==> |ParseMail(s).value.headers| > 0
  {
    var lines := Str.Split(Sections(s).0, LINE_BREAK);
    UnfoldLinesFails(lines);
    if ParseMail(s).Success? {
      var entries := UnfoldLines(lines).value;
      HeaderMapFails(entries);
      assert HasColon(entries[0]);
      var n := Field(entries[0]).value.0;
      HeaderMapKeys(entries, n);
      assert n in ParseMail(s).value.headers;
    }
  }

  /** With a blank line, the body is everything after the first one and
      the headers are parsed from everything before it. */
  lemma ParseMailSplit(h: string, c: string)
    requires forall j :: 0 <= j < |h| ==> !OccursAt(h + BLANK_LINE + c, BLANK_LINE, j)
    ensures ParseMail(h + BLANK_LINE + c).Success? <==>
              Unfold(h).Success? && HeaderMap(Unfold(h).value).Success?
    ensures ParseMail(h + BLANK_LINE + c).Success? ==>
              ParseMail(h + BLANK_LINE + c).value == Mail(HeaderMap(Unfold(h).value).value, c)
  {
    var s := h + BLANK_LINE + c;
    assert OccursAt(s, BLANK_LINE, |h|) by {
      assert s[|h|..|h| + 4] == BLANK_LINE;
    }
    var (a, b) := Sections(s);
    assert |a| <= |h|;
    assert OccursAt(s, BLANK_LINE, |a|) by {
      assert s[|a|..|a| + 4] == BLANK_LINE;
    }
    assert |a| == |h|;
    assert a == s[..|a|] == h;
    assert b == s[|a| + 4..] == c;
  }

  /** Without a blank line, the whole input, trimmed, is headers and the
      body is empty. */
  lemma ParseMailNoBody(s: string)
    requires forall j :: !OccursAt(s, BLANK_LINE, j)
    ensures ParseMail(s).Success? <==> Unfold(Trim(s)).Success? && HeaderMap(Unfold(Trim(s)).value).Success?
    ensures ParseMail(s).Success? ==> ParseMail(s).value.content == []
  {
  }

  /** A message parses exactly when its header section does not open with
      a continuation and every unfolded header has a colon; the map then
      holds exactly the headers' names. */
  lemma ParseMailHeaders(s: string, n: string)
    ensures ParseMail(s).Success? <==>
              Unfold(Sections(s).0).Success? &&
              forall k :: 0 <= k < |Unfold(Sections(s).0).value| ==> HasColon(Unfold(Sections(s).0).value[k])
    ensures ParseMail(s).Success? ==>
              (n in ParseMail(s).value.headers <==>
                 exists k :: 0 <= k < |Unfold(Sections(s).0).value| && Field(Unfold(Sections(s).0).value[k]).value.0 == n)
  {
    var u := Unfold(Sections(s).0);
    if u.Success? {
      HeaderMapFails(u.value);
      if HeaderMap(u.value).Success? {
        HeaderMapKeys(u.value, n);
      }
    }
  }

  /** Text with no carriage return holds no line break and no blank line. */
  lemma SingleLineText(h: string, c: string)
    requires forall i :: 0 <= i < |h| ==> h[i] != '\r'
    ensures forall j :: 0 <= j < |h| ==> !OccursAt(h + BLANK_LINE + c, BLANK_LINE, j)
    ensures Str.Split(h, LINE_BREAK) == [h]
  {
    NoBlankLineBefore(h, c);
    NoLineBreak(h);
  }

  lemma NoBlankLineBefore(h: string, c: string)
    requires forall i :: 0 <= i < |h| ==> h[i] != '\r'
    ensures forall j :: 0 <= j < |h| ==> !OccursAt(h + BLANK_LINE + c, BLANK_LINE, j)
  {
    var s := h + BLANK_LINE + c;
    forall j | 0 <= j < |h|
      ensures !OccursAt(s, BLANK_LINE, j)
    {
      assert s[j] == h[j];
    }
  }

  lemma NoLineBreak(h: string)
    requires forall i :: 0 <= i < |h| ==> h[i] != '\r'
    ensures Str.Split(h, LINE_BREAK) == [h]
  {
    forall j | 0 <= j && j + 2 <= |h|
      ensures !OccursAt(h, LINE_BREAK, j)
    {
      assert h[j..j + 2][0] == h[j];
    }
  }

  /** A single header line unfolds to itself. */
  lemma SingleUnfold(h: string)
    requires forall i :: 0 <= i < |h| ==> h[i] != '\r'
    requires StartsEntry(h)
    ensures Unfold(h) == Success([h])
  {
    SingleLineText(h, []);
    UnfoldPush([], h);
    assert [] + [h] == [h];
  }

  /** One field makes a map of one entry. */
  lemma SingleInsert(f: Option<(string, string)>)
    requires f.Some?
    ensures Insert([f]) == Success(map[f.value.0 := f.value.1])
  {
    assert [f][..0] == [];
  }

  /** A message with one header line: the map has that header's field
      and the body is what follows the blank line. */
  lemma SingleHeader(h: string, c: string)
    requires forall i :: 0 <= i < |h| ==> h[i] != '\r'
    requires StartsEntry(h) && HasColon(h)
    ensures ParseMail(h + BLANK_LINE + c) == Success(Mail(map[Field(h).value.0 := Field(h).value.1], c))
  {
    SingleLineText(h, c);
    ParseMailSplit(h, c);
    SingleUnfold(h);
    var f := Field(h);
    assert Fields([h]) == [f];
    SingleInsert(f);
  }

  /** A header is split at its first colon. */
  lemma FirstColon(h: string, i: nat)
    requires i < |h| && h[i] == ':' && forall j :: 0 <= j < i ==> h[j] != ':'
    ensures Field(h) == Some((Trim(h[..i]), Trim(h[i + 1..])))
  {
    assert OccursAt(h, ":", i) by {
      assert h[i..i + 1] == [h[i]];
    }
    match SplitOnce(h, ":")
    case Some((a, b)) =>
      assert |a| <= i;
      assert OccursAt(h, ":", |a|) by {
        assert h[|a|..|a| + 1] == ":";
      }
      assert h[|a|] == ':';
      assert |a| == i;
      assert a == h[..i];
  }

  lemma AfterPrefix(a: string, b: string)
    ensures (a + b)[|a|..] == b
    ensures (a + b)[..|a|] == a
  {
  }

  /** The field of `name:value` is the trimmed name and trimmed value. */
  lemma FieldOfLine(name: string, value: string)
    requires forall i :: 0 <= i < |name| ==> name[i] != ':'
    ensures Field(name + ":" + value) == Some((Trim(name), Trim(value)))
  {
    var h := name + ":" + value;
    assert h[|name|] == ':';
    assert forall j :: 0 <= j < |name| ==> h[j] == name[j];
    FirstColon(h, |name|);
    AfterPrefix(name + ":", value);
    AfterPrefix(name, ":");
    assert h[..|name|] == (name + ":")[..|name|];
  }

  lemma NoCrLine(name: string, value: string)
    requires forall i :: 0 <= i < |name| ==> name[i] != '\r'
    requires forall i :: 0 <= i < |value| ==> value[i] != '\r'
    ensures forall i :: 0 <= i < |name + ":" + value| ==> (name + ":" + value)[i] != '\r'
  {
  }

  /** The shape of the source's parsing test, for one header: a line
      `name:value`, a blank line and a body parse to the map with the
      trimmed name bound to the trimmed value, and that body. */
  lemma HeaderLine(name: string, value: string, c: string)
    requires |name| > 0 && !IsWhitespace(name[0])
    requires forall i :: 0 <= i < |name| ==> name[i] != ':' && name[i] != '\r'
    requires forall i :: 0 <= i < |value| ==> value[i] != '\r'
    ensures ParseMail(name + ":" + value + BLANK_LINE + c) == Success(Mail(map[Trim(name) := Trim(value)], c))
  {
    var h := name + ":" + value;
    FieldOfLine(name, value);
    NoCrLine(name, value);
    assert h[0] == name[0];
    SingleHeader(h, c);
  }

  /** A message with no header at all is rejected. */
  lemma EmptyMailRejected()
    ensures ParseMail([]).Failure?
  {
    var none: string := [];
    assert Find(none, BLANK_LINE, 0) == None;
    assert Trim(none) == none;
    assert Sections(none) == (none, none);
    assert Find(none, LINE_BREAK, 0) == None;
    assert Str.Split(none, LINE_BREAK) == [none];
    UnfoldPush([], none);
    assert [] + [none] == [none];
    HeaderMapFails([none]);
    assert !HasColon(none);
  }
}
