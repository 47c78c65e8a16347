/** The POP3 command parser of `src/pop3/command.rs`: a CRLF-terminated
    client frame is split on spaces, its verb is matched case-insensitively
    against thirteen verbs, and the verb's arguments are extracted. */
module Pop3Command {
  import opened Wrappers
  import opened Bytes

  /** A parsed client command (RFC 1939). Numbers are unbounded: the
      source's `usize` is not modelled. */
  datatype Command =
    | Quit
    | Stat
    | List(listed: Option<nat>)
    | Retrieve(message: nat)
    | Delete(message: nat)
    | NoOp
    | Reset
    | Capabilities
    | Top(message: nat, lines: nat)
    | UniqueIdListing(listed: Option<nat>)
    | Username(username: seq<byte>)
    | Password(password: seq<byte>)
    | Apop(username: seq<byte>, digest: seq<byte>)

  datatype CommandErr =
    | InvalidSyntax
    | UnknownCommand(verb: seq<byte>)
    | InvalidArguments
    | IncompleteResponse

  const QUIT: seq<byte> := [81, 85, 73, 84]  // "QUIT"
  const STAT: seq<byte> := [83, 84, 65, 84]  // "STAT"
  const LIST: seq<byte> := [76, 73, 83, 84]  // "LIST"
  const RETR: seq<byte> := [82, 69, 84, 82]  // "RETR"
  const DELE: seq<byte> := [68, 69, 76, 69]  // "DELE"
  const NOOP: seq<byte> := [78, 79, 79, 80]  // "NOOP"
  const RSET: seq<byte> := [82, 83, 69, 84]  // "RSET"
  const CAPA: seq<byte> := [67, 65, 80, 65]  // "CAPA"
  const TOP: seq<byte> := [84, 79, 80]  // "TOP"
  const UIDL: seq<byte> := [85, 73, 68, 76]  // "UIDL"
  const USER: seq<byte> := [85, 83, 69, 82]  // "USER"
  const PASS: seq<byte> := [80, 65, 83, 83]  // "PASS"
  const APOP: seq<byte> := [65, 80, 79, 80]  // "APOP"

  /** The thirteen verbs the parser recognises, in upper case. */
  predicate IsVerb(v: seq<byte>) {
    v in {QUIT, STAT, LIST, RETR, DELE, NOOP, RSET, CAPA, TOP, UIDL, USER, PASS, APOP}
  }

  // ---------------------------------------------------------------------
  // Decimal arguments
  // ---------------------------------------------------------------------

  /** `char::to_digit(10)` succeeds exactly on '0'..'9'. */
  predicate IsDigit(b: byte) {
    48 <= b <= 57
  }

  function DigitValue(b: byte): nat
    requires IsDigit(b)
  {
    (b - 48) as nat
  }

  predicate AllDigits(s: seq<byte>) {
    forall i :: 0 <= i < |s| ==> IsDigit(s[i])
  }

  /** The value of a digit string read most-significant digit first. */
  ghost function DecimalValue(s: seq<byte>): nat
    requires AllDigits(s)
    decreases |s|
  {
    if |s| == 0 then 0 else 10 * DecimalValue(s[..|s| - 1]) + DigitValue(s[|s| - 1])
  }

  function Pow10(k: nat): (r: nat)
    ensures r >= 1
  {
    if k == 0 then 1 else 10 * Pow10(k - 1)
  }

  /** A leading digit weighs ten to the power of the digits after it. */
  lemma {:induction false} DecimalValuePrepend(d: byte, t: seq<byte>)
    requires IsDigit(d) && AllDigits(t)
    ensures AllDigits([d] + t)
    ensures DecimalValue([d] + t) == DigitValue(d) * Pow10(|t|) + DecimalValue(t)
    decreases |t|
  {
    var s := [d] + t;
    if |t| == 0 {
      assert s[..|s| - 1] == [];
    } else {
      var t' := t[..|t| - 1];
      assert s[..|s| - 1] == [d] + t';
      assert s[|s| - 1] == t[|t| - 1];
      DecimalValuePrepend(d, t');
      Regroup(DigitValue(d), Pow10(|t'|), DecimalValue(t'), DigitValue(t[|t| - 1]));
      calc {
        DecimalValue(s);
        10 * DecimalValue([d] + t') + DigitValue(t[|t| - 1]);
        10 * (DigitValue(d) * Pow10(|t'|) + DecimalValue(t')) + DigitValue(t[|t| - 1]);
        DigitValue(d) * (10 * Pow10(|t'|)) + (10 * DecimalValue(t') + DigitValue(t[|t| - 1]));
        DigitValue(d) * Pow10(|t|) + DecimalValue(t);
      }
    }
  }

  /** Shifting a number one decimal place, spelt out for the solver. */
  lemma Regroup(x: int, p: int, y: int, z: int)
    ensures 10 * (x * p + y) + z == x * (10 * p) + (10 * y + z)
  {
  }

  /** What the loop of `bytes_to_uint` accumulates over the last `k`
      octets of `s`: the octet at distance `i` from the end contributes
      its digit times ten to the `i`; any non-digit aborts the parse. */
  function WeightedDigitSum(s: seq<byte>, k: nat): (r: Option<nat>)
    requires k <= |s|
    ensures r.Some? <==> AllDigits(s[|s| - k..])
    ensures r.Some? ==> r.value == DecimalValue(s[|s| - k..])
    decreases k
  {
    if k == 0 then
      Some(0)
    else
      var d := s[|s| - k];
      var tail := s[|s| - k + 1..];
      assert s[|s| - k..] == [d] + tail;
      if !IsDigit(d) then
        None
      else
        match WeightedDigitSum(s, k - 1)
        case None => None
        case Some(v) =>
          DecimalValuePrepend(d, tail);
          Some(v + DigitValue(d) * Pow10(k - 1))
  }

  /** `bytes_to_uint`: accepts exactly the non-empty all-digit strings
      (leading zeros allowed, no sign) and yields their decimal value. */
  function BytesToUint(s: seq<byte>): (r: Option<nat>)
    ensures r.Some? <==> |s| > 0 && AllDigits(s)
    ensures r.Some? ==> r.value == DecimalValue(s)
  {
    assert s[|s| - |s|..] == s;
    if |s| == 0 then None else WeightedDigitSum(s, |s|)
  }

  /** The shortest decimal spelling of `n`. */
  function Decimal(n: nat): (r: seq<byte>)
    ensures |r| > 0 && AllDigits(r)
    ensures DecimalValue(r) == n
    decreases n
  {
    var last := (48 + n % 10) as byte;
    if n < 10 then
      assert [last][..0] == [];
      [last]
    else
      var r := Decimal(n / 10) + [last];
      assert r[..|r| - 1] == Decimal(n / 10);
      r
  }

  /** The decimal parser inverts the decimal spelling. */
  lemma BytesToUintDecimal(n: nat)
    ensures BytesToUint(Decimal(n)) == Some(n)
  {
  }

  // ---------------------------------------------------------------------
  // Upper-casing
  // ---------------------------------------------------------------------

  predicate IsLower(b: byte) {
    97 <= b <= 122
  }

  /** `make_ascii_uppercase` on one octet. */
  function UpperByte(b: byte): byte {
    if IsLower(b) then b - 32 else b
  }

  /** `uppercase`: the same length, 'a'..'z' mapped to 'A'..'Z', every
      other octet unchanged. */
  function Uppercase(s: seq<byte>): (r: seq<byte>)
    ensures |r| == |s|
    ensures forall i :: 0 <= i < |s| && IsLower(s[i]) ==> r[i] as int == s[i] as int - 32
    ensures forall i :: 0 <= i < |s| && !IsLower(s[i]) ==> r[i] == s[i]
    decreases |s|
  {
    if |s| == 0 then [] else [UpperByte(s[0])] + Uppercase(s[1..])
  }

  /** Upper-casing leaves no lower-case letter, so it is idempotent, and a
      string without lower-case letters is its own upper case. */
  lemma UppercaseIdempotent(s: seq<byte>)
    ensures forall i :: 0 <= i < |s| ==> !IsLower(Uppercase(s)[i])
    ensures Uppercase(Uppercase(s)) == Uppercase(s)
  {
  }

  lemma UppercaseOfUpper(s: seq<byte>)
    requires forall i :: 0 <= i < |s| ==> !IsLower(s[i])
    ensures Uppercase(s) == s
  {
  }

  // ---------------------------------------------------------------------
  // Tokenizing
  // ---------------------------------------------------------------------

  predicate NoSpace(s: seq<byte>) {
    forall i :: 0 <= i < |s| ==> s[i] != SP
  }

  /** The pieces with one octet appended to the last one. */
  function ExtendLast(pieces: seq<seq<byte>>, c: byte): seq<seq<byte>>
    requires |pieces| > 0
  {
    pieces[..|pieces| - 1] + [pieces[|pieces| - 1] + [c]]
  }

  /** Every piece of `s` between spaces, including empty ones, built octet
      by octet from the left: a space starts a new empty piece, any other
      octet extends the current one. */
  function Split(s: seq<byte>): (r: seq<seq<byte>>)
    ensures |r| >= 1
    decreases |s|
  {
    if |s| == 0 then
      [[]]
    else
      var init := Split(s[..|s| - 1]);
      if s[|s| - 1] == SP then init + [[]] else ExtendLast(init, s[|s| - 1])
  }

  /** One step of `Split`, for an input written as a prefix and an octet. */
  lemma SplitSnoc(p: seq<byte>, c: byte)
    ensures c == SP ==> Split(p + [c]) == Split(p) + [[]]
    ensures c != SP ==> Split(p + [c]) == ExtendLast(Split(p), c)
  {
    assert (p + [c])[..|p|] == p;
  }

  /** The pieces joined back with single spaces. */
  function JoinSpaces(pieces: seq<seq<byte>>): seq<byte>
    requires |pieces| > 0
    decreases |pieces|
  {
    if |pieces| == 1 then pieces[0]
    else JoinSpaces(pieces[..|pieces| - 1]) + [SP] + pieces[|pieces| - 1]
  }

  /** No piece of a split holds a space. */
  lemma {:induction false} SplitPiecesNoSpace(s: seq<byte>)
    ensures forall k :: 0 <= k < |Split(s)| ==> NoSpace(Split(s)[k])
    decreases |s|
  {
    if |s| > 0 {
      var p := s[..|s| - 1];
      var c := s[|s| - 1];
      assert s == p + [c];
      SplitPiecesNoSpace(p);
      SplitSnoc(p, c);
      if c != SP {
        var init := Split(p);
        assert NoSpace(init[|init| - 1] + [c]);
      }
    }
  }

  /** Extending the last piece extends the joined text. */
  lemma JoinExtendLast(pieces: seq<seq<byte>>, c: byte)
    requires |pieces| > 0
    ensures JoinSpaces(ExtendLast(pieces, c)) == JoinSpaces(pieces) + [c]
  {
    var n := |pieces|;
    var r := ExtendLast(pieces, c);
    if n > 1 {
      assert r[..n - 1] == pieces[..n - 1];
      AppendAssociative(JoinSpaces(pieces[..n - 1]) + [SP], pieces[n - 1], [c]);
    }
  }

  /** Joining the pieces of a split with spaces gives back the input. */
  lemma {:induction false} JoinSplit(s: seq<byte>)
    ensures JoinSpaces(Split(s)) == s
    decreases |s|
  {
    if |s| > 0 {
      var p := s[..|s| - 1];
      var c := s[|s| - 1];
      assert s == p + [c];
      JoinSplit(p);
      SplitSnoc(p, c);
      var init := Split(p);
      if c == SP {
        assert (init + [[]])[..|init|] == init;
        assert JoinSpaces(init + [[]]) == JoinSpaces(init) + [SP] + [];
      } else {
        JoinExtendLast(init, c);
      }
    }
  }

  /** Splitting on spaces loses nothing: the pieces hold no space and
      joining them with spaces gives back the input. */
  lemma SplitInverse(s: seq<byte>)
    ensures forall k :: 0 <= k < |Split(s)| ==> NoSpace(Split(s)[k])
    ensures JoinSpaces(Split(s)) == s
  {
    SplitPiecesNoSpace(s);
    JoinSplit(s);
  }

  /** A space-free word splits into itself. */
  lemma {:induction false} SplitSingleWord(v: seq<byte>)
    requires NoSpace(v)
    ensures Split(v) == [v]
    decreases |v|
  {
    if |v| > 0 {
      SplitSingleWord(v[..|v| - 1]);
      assert v[..|v| - 1] + [v[|v| - 1]] == v;
    }
  }

  /** One octet appended after a split-off word extends the rest alone. */
  lemma SplitWordStep(v: seq<byte>, q: seq<byte>, c: byte)
    requires Split(v + [SP] + q) == [v] + Split(q)
    ensures Split(v + [SP] + q + [c]) == [v] + Split(q + [c])
  {
    var x := Split(q);
    SplitSnoc(v + [SP] + q, c);
    SplitSnoc(q, c);
    if c == SP {
      assert ([v] + x) + [[]] == [v] + (x + [[]]);
    } else {
      assert ExtendLast([v] + x, c) == [v] + ExtendLast(x, c);
    }
  }

  /** A space-free word followed by a space splits off as the first piece. */
  lemma {:induction false} SplitWord(v: seq<byte>, q: seq<byte>)
    requires NoSpace(v)
    ensures Split(v + [SP] + q) == [v] + Split(q)
    decreases |q|
  {
    if |q| == 0 {
      SplitSingleWord(v);
      SplitSnoc(v, SP);
      assert v + [SP] + q == v + [SP];
    } else {
      var q', c := q[..|q| - 1], q[|q| - 1];
      SplitWord(v, q');
      SplitWordStep(v, q', c);
      assert q == q' + [c];
      assert v + [SP] + q == v + [SP] + q' + [c];
    }
  }

  /** The argument list the parser builds (lines 86-96 of the source): the
      space-separated pieces of the input, except that a final empty piece
      (an empty input, or one ending in a space) is not pushed. */
  function Tokenize(s: seq<byte>): (r: seq<seq<byte>>)
    ensures |r| == 0 <==> |s| == 0
    ensures forall k :: 0 <= k < |r| ==> NoSpace(r[k])
    ensures |s| > 0 && s[|s| - 1] == SP ==> JoinSpaces(r) + [SP] == s
    ensures |s| > 0 && s[|s| - 1] != SP ==> JoinSpaces(r) == s
  {
    if |s| == 0 then
      []
    else if s[|s| - 1] == SP then
      SplitInverse(s[..|s| - 1]);
      assert s == s[..|s| - 1] + [SP];
      Split(s[..|s| - 1])
    else
      SplitInverse(s);
      Split(s)
  }

  /** One iteration of the tokenizing loop on a space: the piece after
      the last space is pushed and an empty one begins. */
  lemma TokenizeStepSpace(bytes: seq<byte>, i: nat, args: seq<seq<byte>>, lastSpace: nat)
    requires lastSpace <= i < |bytes| && bytes[i] == SP
    requires Split(bytes[..i]) == args + [bytes[lastSpace..i]]
    ensures Split(bytes[..i + 1]) == (args + [bytes[lastSpace..i]]) + [bytes[i + 1..i + 1]]
    ensures i + 1 == |bytes| ==> args + [bytes[lastSpace..i]] == Tokenize(bytes)
  {
    assert bytes[..i + 1] == bytes[..i] + [SP];
    SplitSnoc(bytes[..i], SP);
    assert bytes[i + 1..i + 1] == [];
    if i + 1 == |bytes| {
      assert bytes[..|bytes| - 1] == bytes[..i];
    }
  }

  /** One iteration of the tokenizing loop on any other octet: it extends
      the piece after the last space, which the last octet pushes. */
  lemma TokenizeStepOther(bytes: seq<byte>, i: nat, args: seq<seq<byte>>, lastSpace: nat)
    requires lastSpace <= i < |bytes| && bytes[i] != SP
    requires Split(bytes[..i]) == args + [bytes[lastSpace..i]]
    ensures Split(bytes[..i + 1]) == args + [bytes[lastSpace..i + 1]]
    ensures i + 1 == |bytes| ==> args + [bytes[lastSpace..]] == Tokenize(bytes)
  {
    var c := bytes[i];
    var pieces := args + [bytes[lastSpace..i]];
    assert bytes[..i + 1] == bytes[..i] + [c];
    SplitSnoc(bytes[..i], c);
    assert pieces[..|pieces| - 1] == args;
    assert bytes[lastSpace..i] + [c] == bytes[lastSpace..i + 1];
    if i + 1 == |bytes| {
      assert bytes[..i + 1] == bytes;
      assert bytes[lastSpace..i + 1] == bytes[lastSpace..];
    }
  }

  /** The tokenizing loop of the source, octet by octet, with the position
      after the last space; it computes `Tokenize`. */
  method TokenizeLoop(bytes: seq<byte>) returns (args: seq<seq<byte>>)
    ensures args == Tokenize(bytes)
  {
    args := [];
    var lastSpace := 0;
    for i := 0 to |bytes|
      invariant lastSpace <= i
      invariant i < |bytes| ==> Split(bytes[..i]) == args + [bytes[lastSpace..i]]
      invariant i == |bytes| ==> args == Tokenize(bytes)
    {
      if bytes[i] == SP {
        TokenizeStepSpace(bytes, i, args, lastSpace);
        args := args + [bytes[lastSpace..i]];
        lastSpace := i + 1;
      } else {
        TokenizeStepOther(bytes, i, args, lastSpace);
        if i == |bytes| - 1 {
          args := args + [bytes[lastSpace..]];
        }
      }
    }
  }

  /** A space-free verb followed by nothing or by a space is the first token,
      and the rest tokenizes on its own. */
  lemma TokenizeVerb(v: seq<byte>, q: seq<byte>)
    requires |v| > 0 && NoSpace(v)
    requires |q| == 0 || q[0] == SP
    ensures Tokenize(v + q) == [v] + (if |q| == 0 then [] else Tokenize(q[1..]))
  {
    SplitSingleWord(v);
    if |q| > 0 {
      var q' := q[1..];
      assert v + q == v + [SP] + q';
      if |q'| == 0 {
        assert (v + q)[..|v + q| - 1] == v;
      } else if q'[|q'| - 1] == SP {
        var body := q'[..|q'| - 1];
        assert (v + q)[..|v + q| - 1] == v + [SP] + body;
        SplitWord(v, body);
      } else {
        SplitWord(v, q');
      }
    } else {
      assert v + q == v;
    }
  }

  // ---------------------------------------------------------------------
  // Argument extraction and verb dispatch
  // ---------------------------------------------------------------------

  /** The `numeric_arg` closure: a missing or non-decimal argument is
      `InvalidArguments`. */
  function NumericArg(args: seq<seq<byte>>, i: nat): (r: Result<nat, CommandErr>)
    ensures r.Success? <==> i < |args| && BytesToUint(args[i]).Some?
    ensures r.Success? ==> r.value == DecimalValue(args[i])
    ensures r.Failure? ==> r.error == InvalidArguments
  {
    if i < |args| then
      match BytesToUint(args[i])
      case Some(n) => Success(n)
      case None => Failure(InvalidArguments)
    else
      Failure(InvalidArguments)
  }

  /** The `bytes_arg` closure: a missing argument is `InvalidArguments`. */
  function BytesArg(args: seq<seq<byte>>, i: nat): (r: Result<seq<byte>, CommandErr>)
    ensures r.Success? <==> i < |args|
    ensures r.Success? ==> r.value == args[i]
    ensures r.Failure? ==> r.error == InvalidArguments
  {
    if i < |args| then Success(args[i]) else Failure(InvalidArguments)
  }

  /** The `match` on the upper-cased verb (lines 117-153 of the source). */
  function Dispatch(args: seq<seq<byte>>): (r: Result<Command, CommandErr>)
    requires |args| > 0
    ensures r.Failure? ==> r.error == InvalidArguments || r.error.UnknownCommand?
    ensures r.Failure? && r.error.UnknownCommand? <==> !IsVerb(Uppercase(args[0]))
    ensures r.Failure? && r.error.UnknownCommand? ==> r.error.verb == args[0]
    ensures Uppercase(args[0]) == QUIT ==> r == Success(Quit)
    ensures Uppercase(args[0]) == STAT ==> r == Success(Stat)
    ensures Uppercase(args[0]) == NOOP ==> r == Success(NoOp)
    ensures Uppercase(args[0]) == RSET ==> r == Success(Reset)
    ensures Uppercase(args[0]) == CAPA ==> r == Success(Capabilities)
    ensures Uppercase(args[0]) == LIST ==> r == Success(List(if |args| > 1 then BytesToUint(args[1]) else None))
    ensures Uppercase(args[0]) == UIDL ==>
              r == Success(UniqueIdListing(if |args| > 1 then BytesToUint(args[1]) else None))
    ensures Uppercase(args[0]) == RETR ==> (r.Success? <==> |args| > 1 && BytesToUint(args[1]).Some?)
    ensures Uppercase(args[0]) == RETR && r.Success? ==> r.value == Retrieve(BytesToUint(args[1]).value)
    ensures Uppercase(args[0]) == DELE ==> (r.Success? <==> |args| > 1 && BytesToUint(args[1]).Some?)
    ensures Uppercase(args[0]) == DELE && r.Success? ==> r.value == Delete(BytesToUint(args[1]).value)
    ensures Uppercase(args[0]) == TOP ==>
              (r.Success? <==> |args| > 2 && BytesToUint(args[1]).Some? && BytesToUint(args[2]).Some?)
    ensures Uppercase(args[0]) == TOP && r.Success? ==>
              r.value == Top(BytesToUint(args[1]).value, BytesToUint(args[2]).value)
    ensures Uppercase(args[0]) == USER ==> (r.Success? <==> |args| > 1)
    ensures Uppercase(args[0]) == USER && r.Success? ==> r.value == Username(args[1])
    ensures Uppercase(args[0]) == PASS ==> (r.Success? <==> |args| > 1)
    ensures Uppercase(args[0]) == PASS && r.Success? ==> r.value == Password(args[1])
    ensures Uppercase(args[0]) == APOP ==> (r.Success? <==> |args| > 2)
    ensures Uppercase(args[0]) == APOP && r.Success? ==> r.value == Apop(args[1], args[2])
  {
    var verb := Uppercase(args[0]);
    if verb == QUIT then Success(Quit)
    else if verb == STAT then Success(Stat)
    else if verb == LIST then Success(List(NumericArg(args, 1).ToOption()))
    else if verb == RETR then
      var n :- NumericArg(args, 1);
      Success(Retrieve(n))
    else if verb == DELE then
      var n :- NumericArg(args, 1);
      Success(Delete(n))
    else if verb == NOOP then Success(NoOp)
    else if verb == RSET then Success(Reset)
    else if verb == CAPA then Success(Capabilities)
    else if verb == TOP then
      var m :- NumericArg(args, 1);
      var n :- NumericArg(args, 2);
      Success(Top(m, n))
    else if verb == UIDL then Success(UniqueIdListing(NumericArg(args, 1).ToOption()))
    else if verb == USER then
      var u :- BytesArg(args, 1);
      Success(Username(u))
    else if verb == PASS then
      var p :- BytesArg(args, 1);
      Success(Password(p))
    else if verb == APOP then
      var u :- BytesArg(args, 1);
      var d :- BytesArg(args, 2);
      Success(Apop(u, d))
    else
      Failure(UnknownCommand(args[0]))
  }

  /** The frame without its final CRLF. */
  function Body(frame: seq<byte>): seq<byte>
    requires EndsWith(frame, CRLF)
  {
    frame[..|frame| - 2]
  }

  /** `POP3Command::try_from`: a frame shorter than two octets or not
      ending in CRLF is incomplete; a bare CRLF has no verb; an unmatched
      verb is reported with its original spelling. */
  function Parse(frame: seq<byte>): (r: Result<Command, CommandErr>)
    ensures r == Failure(IncompleteResponse) <==> !EndsWith(frame, CRLF)
    ensures r == Failure(InvalidSyntax) <==> frame == CRLF
    ensures r.Failure? && r.error.UnknownCommand? <==>
              EndsWith(frame, CRLF) && |frame| > 2 && !IsVerb(Uppercase(Tokenize(Body(frame))[0]))
    ensures r.Failure? && r.error.UnknownCommand? ==> r.error.verb == Tokenize(Body(frame))[0]
  {
    if |frame| < 2 || frame[|frame| - 2..] != CRLF then
      Failure(IncompleteResponse)
    else
      var args := Tokenize(frame[..|frame| - 2]);
      if |args| == 0 then
        assert frame == frame[..|frame| - 2] + CRLF;
        Failure(InvalidSyntax)
      else
        Dispatch(args)
  }

  // ---------------------------------------------------------------------
  // Properties of the parser
  // ---------------------------------------------------------------------

  /** The first two octets of every verb, which tell them all apart, and
      the fact that they are spelt in upper case. */
  lemma VerbSpelling()
    ensures |QUIT| == 4 && QUIT[0] == 81 && QUIT[1] == 85
    ensures |STAT| == 4 && STAT[0] == 83 && STAT[1] == 84
    ensures |LIST| == 4 && LIST[0] == 76 && LIST[1] == 73
    ensures |RETR| == 4 && RETR[0] == 82 && RETR[1] == 69
    ensures |DELE| == 4 && DELE[0] == 68 && DELE[1] == 69
    ensures |NOOP| == 4 && NOOP[0] == 78 && NOOP[1] == 79
    ensures |RSET| == 4 && RSET[0] == 82 && RSET[1] == 83
    ensures |CAPA| == 4 && CAPA[0] == 67 && CAPA[1] == 65
    ensures |TOP| == 3 && TOP[0] == 84 && TOP[1] == 79
    ensures |UIDL| == 4 && UIDL[0] == 85 && UIDL[1] == 73
    ensures |USER| == 4 && USER[0] == 85 && USER[1] == 83
    ensures |PASS| == 4 && PASS[0] == 80 && PASS[1] == 65
    ensures |APOP| == 4 && APOP[0] == 65 && APOP[1] == 80
  {
  }

  /** Every verb is a non-empty, space-free word ... */
  lemma VerbIsWord(v: seq<byte>)
    requires IsVerb(v)
    ensures |v| > 0 && NoSpace(v)
  {
  }

  /** ... spelt in upper case. */
  lemma VerbIsUpper(v: seq<byte>)
    requires IsVerb(v)
    ensures Uppercase(v) == v
  {
    if v in {QUIT, STAT, LIST, RETR, DELE, NOOP, RSET} {
      assert forall i :: 0 <= i < |v| ==> !IsLower(v[i]);
    } else {
      assert forall i :: 0 <= i < |v| ==> !IsLower(v[i]);
    }
    UppercaseOfUpper(v);
  }

  /** Space-free words joined with spaces tokenize back into those words. */
  lemma {:induction false} SplitAfterSpace(x: seq<byte>, y: seq<byte>)
    requires NoSpace(y)
    ensures Split(x + [SP] + y) == Split(x) + [y]
    decreases |y|
  {
    if |y| == 0 {
      SplitSnoc(x, SP);
      assert x + [SP] + y == x + [SP];
    } else {
      var y', c := y[..|y| - 1], y[|y| - 1];
      SplitAfterSpace(x, y');
      SplitSnoc(x + [SP] + y', c);
      assert x + [SP] + y == (x + [SP] + y') + [c];
      var pieces := Split(x) + [y'];
      assert ExtendLast(pieces, c) == Split(x) + [y' + [c]];
      assert y' + [c] == y;
    }
  }

  predicate WellFormedArg(a: seq<byte>) {
    |a| > 0 && NoSpace(a)
  }

  /** Non-empty, space-free words joined with single spaces tokenize back
      into those words. */
  lemma TokenizeJoin(words: seq<seq<byte>>)
    requires |words| > 0
    requires forall k :: 0 <= k < |words| ==> WellFormedArg(words[k])
    ensures Tokenize(JoinSpaces(words)) == words
  {
    SplitJoin(words);
    JoinSpacesEnd(words);
  }

  /** Joined words end with the last octet of the last word. */
  lemma {:induction false} JoinSpacesEnd(words: seq<seq<byte>>)
    requires |words| > 0 && |words[|words| - 1]| > 0
    ensures var s, last := JoinSpaces(words), words[|words| - 1];
      |s| > 0 && s[|s| - 1] == last[|last| - 1]
  {
  }

  /** Space-free, non-empty words joined with spaces split back into them. */
  lemma {:induction false} SplitJoin(words: seq<seq<byte>>)
    requires |words| > 0
    requires forall k :: 0 <= k < |words| ==> WellFormedArg(words[k])
    ensures Split(JoinSpaces(words)) == words
    decreases |words|
  {
    if |words| == 1 {
      SplitSingleWord(words[0]);
    } else {
      var init := words[..|words| - 1];
      SplitJoin(init);
      SplitAfterSpace(JoinSpaces(init), words[|words| - 1]);
      assert words == init + [words[|words| - 1]];
    }
  }

  /** Every command whose raw arguments are non-empty and space-free. */
  predicate WellFormed(c: Command) {
    match c
    case Username(u) => WellFormedArg(u)
    case Password(p) => WellFormedArg(p)
    case Apop(u, d) => WellFormedArg(u) && WellFormedArg(d)
    case _ => true
  }

  /** The words of a command on the wire (RFC 1939): its verb and its
      arguments, numbers in decimal. */
  function Words(c: Command): seq<seq<byte>>
  {
    match c
    case Quit => [QUIT]
    case Stat => [STAT]
    case List(None) => [LIST]
    case List(Some(n)) => [LIST, Decimal(n)]
    case Retrieve(n) => [RETR, Decimal(n)]
    case Delete(n) => [DELE, Decimal(n)]
    case NoOp => [NOOP]
    case Reset => [RSET]
    case Capabilities => [CAPA]
    case Top(m, n) => [TOP, Decimal(m), Decimal(n)]
    case UniqueIdListing(None) => [UIDL]
    case UniqueIdListing(Some(n)) => [UIDL, Decimal(n)]
    case Username(u) => [USER, u]
    case Password(p) => [PASS, p]
    case Apop(u, d) => [APOP, u, d]
  }

  /** The frame a client sends for a command: its words separated by single
      spaces, then CRLF. */
  function Serialize(c: Command): seq<byte>
  {
    JoinSpaces(Words(c)) + CRLF
  }

  /** Parsing inverts serialising: every well-formed command survives the
      trip through the wire unchanged. */
  lemma ParseSerialize(c: Command)
    requires WellFormed(c)
    ensures Parse(Serialize(c)) == Success(c)
  {
    WordsWellFormed(c);
    ParseWords(Words(c));
    DispatchWords(c);
  }

  lemma WordsWellFormed(c: Command)
    requires WellFormed(c)
    ensures forall k :: 0 <= k < |Words(c)| ==> WellFormedArg(Words(c)[k])
  {
    VerbIsWord(Words(c)[0]);
  }

  /** The verb dispatch recovers a command from its words. */
  lemma DispatchWords(c: Command)
    ensures Dispatch(Words(c)) == Success(c)
  {
    if c.List? || c.Retrieve? || c.Delete? || c.Top? || c.UniqueIdListing? {
      DispatchNumericWords(c);
    } else if c.Username? || c.Password? || c.Apop? {
      DispatchRawWords(c);
    } else {
      DispatchBareWords(c);
    }
  }

  /** The commands with numeric arguments. */
  lemma DispatchNumericWords(c: Command)
    requires c.List? || c.Retrieve? || c.Delete? || c.Top? || c.UniqueIdListing?
    ensures Dispatch(Words(c)) == Success(c)
  {
    match c
    case List(None) => DispatchListAll();
    case UniqueIdListing(None) => DispatchUniqueIdAll();
    case List(Some(n)) => BytesToUintDecimal(n); DispatchList(Decimal(n), n);
    case Retrieve(n) => BytesToUintDecimal(n); DispatchRetrieve(Decimal(n), n);
    case Delete(n) => BytesToUintDecimal(n); DispatchDelete(Decimal(n), n);
    case UniqueIdListing(Some(n)) => BytesToUintDecimal(n); DispatchUniqueId(Decimal(n), n);
    case Top(m, n) =>
      BytesToUintDecimal(m);
      BytesToUintDecimal(n);
      DispatchTop(Decimal(m), Decimal(n), m, n);
  }

  /** The commands with raw arguments. */
  lemma DispatchRawWords(c: Command)
    requires c.Username? || c.Password? || c.Apop?
    ensures Dispatch(Words(c)) == Success(c)
  {
    match c
    case Username(u) => DispatchUser(u);
    case Password(p) => DispatchPass(p);
    case Apop(u, d) => DispatchApop(u, d);
  }

  /** The commands without arguments. */
  lemma DispatchBareWords(c: Command)
    requires c.Quit? || c.Stat? || c.NoOp? || c.Reset? || c.Capabilities?
    ensures Dispatch(Words(c)) == Success(c)
  {
    match c
    case Quit => DispatchQuit();
    case Stat => DispatchStat();
    case NoOp => DispatchNoOp();
    case Reset => DispatchReset();
    case Capabilities => DispatchCapabilities();
  }

  // The verbs without arguments, one lemma each to keep every proof small.

  lemma DispatchQuit()
    ensures Dispatch([QUIT]) == Success(Quit)
  {
    VerbSpelling();
    VerbIsUpper(QUIT);
  }

  lemma DispatchStat()
    ensures Dispatch([STAT]) == Success(Stat)
  {
    VerbSpelling();
    VerbIsUpper(STAT);
  }

  lemma DispatchListAll()
    ensures Dispatch([LIST]) == Success(List(None))
  {
    VerbSpelling();
    VerbIsUpper(LIST);
  }

  lemma DispatchNoOp()
    ensures Dispatch([NOOP]) == Success(NoOp)
  {
    VerbSpelling();
    VerbIsUpper(NOOP);
  }

  lemma DispatchReset()
    ensures Dispatch([RSET]) == Success(Reset)
  {
    VerbSpelling();
    VerbIsUpper(RSET);
  }

  lemma DispatchCapabilities()
    ensures Dispatch([CAPA]) == Success(Capabilities)
  {
    VerbSpelling();
    VerbIsUpper(CAPA);
  }

  lemma DispatchUniqueIdAll()
    ensures Dispatch([UIDL]) == Success(UniqueIdListing(None))
  {
    VerbSpelling();
    VerbIsUpper(UIDL);
  }

  // The verbs with raw arguments.

  lemma DispatchUser(a: seq<byte>)
    ensures Dispatch([USER, a]) == Success(Username(a))
  {
    VerbSpelling();
    VerbIsUpper(USER);
  }

  lemma DispatchPass(a: seq<byte>)
    ensures Dispatch([PASS, a]) == Success(Password(a))
  {
    VerbSpelling();
    VerbIsUpper(PASS);
  }

  lemma DispatchApop(a: seq<byte>, b: seq<byte>)
    ensures Dispatch([APOP, a, b]) == Success(Apop(a, b))
  {
    VerbSpelling();
    VerbIsUpper(APOP);
  }

  // The verbs with one numeric argument, given a decimal argument.

  lemma DispatchList(a: seq<byte>, n: nat)
    requires BytesToUint(a) == Some(n)
    ensures Dispatch([LIST, a]) == Success(List(Some(n)))
  {
    VerbSpelling();
    VerbIsUpper(LIST);
  }

  lemma DispatchRetrieve(a: seq<byte>, n: nat)
    requires BytesToUint(a) == Some(n)
    ensures Dispatch([RETR, a]) == Success(Retrieve(n))
  {
    VerbSpelling();
    VerbIsUpper(RETR);
  }

  lemma DispatchDelete(a: seq<byte>, n: nat)
    requires BytesToUint(a) == Some(n)
    ensures Dispatch([DELE, a]) == Success(Delete(n))
  {
    VerbSpelling();
    VerbIsUpper(DELE);
  }

  lemma DispatchUniqueId(a: seq<byte>, n: nat)
    requires BytesToUint(a) == Some(n)
    ensures Dispatch([UIDL, a]) == Success(UniqueIdListing(Some(n)))
  {
    VerbSpelling();
    VerbIsUpper(UIDL);
  }

  lemma DispatchTop(a: seq<byte>, b: seq<byte>, m: nat, n: nat)
    requires BytesToUint(a) == Some(m) && BytesToUint(b) == Some(n)
    ensures Dispatch([TOP, a, b]) == Success(Top(m, n))
  {
    VerbSpelling();
    VerbIsUpper(TOP);
  }

  /** The frames the parser rejects for their arguments: `RETR` or `DELE`
      without a decimal first argument, `TOP` without two decimal
      arguments, `USER` or `PASS` without an argument, `APOP` without two. */
  predicate BadArguments(args: seq<seq<byte>>)
    requires |args| > 0
  {
    var v := Uppercase(args[0]);
    ((v == RETR || v == DELE) && !(|args| > 1 && BytesToUint(args[1]).Some?))
    || (v == TOP && !(|args| > 2 && BytesToUint(args[1]).Some? && BytesToUint(args[2]).Some?))
    || ((v == USER || v == PASS) && |args| < 2)
    || (v == APOP && |args| < 3)
  }

  /** `InvalidArguments` is reported exactly for the bad argument lists. */
  lemma DispatchInvalidArguments(args: seq<seq<byte>>)
    requires |args| > 0
    ensures Dispatch(args) == Failure(InvalidArguments) <==> BadArguments(args)
  {
    VerbSpelling();
  }

  /** A frame is rejected for its arguments exactly when it is complete,
      has a verb, and its tokens are a bad argument list. */
  lemma ParseInvalidArguments(frame: seq<byte>)
    ensures Parse(frame) == Failure(InvalidArguments) <==>
              EndsWith(frame, CRLF) && |Tokenize(Body(frame))| > 0 && BadArguments(Tokenize(Body(frame)))
  {
    if EndsWith(frame, CRLF) && |Tokenize(Body(frame))| > 0 {
      var body := Body(frame);
      assert frame == body + CRLF;
      ParseBody(body);
      DispatchInvalidArguments(Tokenize(body));
    }
  }

  /** Tokens after the third are ignored: no verb takes more than two
      arguments. */
  lemma DispatchSurplus(args: seq<seq<byte>>, extra: seq<seq<byte>>)
    requires |args| >= 3
    ensures Dispatch(args + extra) == Dispatch(args)
  {
    var all := args + extra;
    assert all[0] == args[0] && all[1] == args[1] && all[2] == args[2];
  }

  /** The verb is matched after upper-casing, so its case does not matter;
      an unmatched verb is reported as it was spelt. */
  lemma ParseVerbCaseInsensitive(v: seq<byte>, tail: seq<byte>)
    requires |v| > 0 && NoSpace(v)
    requires |tail| == 0 || tail[0] == SP
    ensures IsVerb(Uppercase(v)) ==> Parse(v + tail + CRLF) == Parse(Uppercase(v) + tail + CRLF)
    ensures !IsVerb(Uppercase(v)) ==> Parse(v + tail + CRLF) == Failure(UnknownCommand(v))
  {
    var u := Uppercase(v);
    assert NoSpace(u);
    TokenizeVerb(v, tail);
    TokenizeVerb(u, tail);
    UppercaseIdempotent(v);
    var a, b := Tokenize(v + tail), Tokenize(u + tail);
    ParseBody(v + tail);
    ParseBody(u + tail);
    assert a[0] == v && b[0] == u && a[1..] == b[1..];
    if IsVerb(u) {
      DispatchVerbCase(a, b);
    }
  }

  /** A frame with a body of at least one token is dispatched on its tokens. */
  lemma ParseBody(body: seq<byte>)
    requires |Tokenize(body)| > 0
    ensures Parse(body + CRLF) == Dispatch(Tokenize(body))
  {
    var f := body + CRLF;
    assert f[..|f| - 2] == body;
    assert f[|f| - 2..] == CRLF;
  }

  /** `Dispatch` looks at the verb only through its upper case. */
  lemma DispatchVerbCase(a: seq<seq<byte>>, b: seq<seq<byte>>)
    requires |a| > 0 && |b| == |a|
    requires Uppercase(a[0]) == Uppercase(b[0]) && a[1..] == b[1..]
    requires IsVerb(Uppercase(a[0]))
    ensures Dispatch(a) == Dispatch(b)
  {
    assert forall k :: 1 <= k < |a| ==> a[k] == a[1..][k - 1] == b[k];
    assert NumericArg(a, 1) == NumericArg(b, 1);
    assert NumericArg(a, 2) == NumericArg(b, 2);
    assert BytesArg(a, 1) == BytesArg(b, 1);
    assert BytesArg(a, 2) == BytesArg(b, 2);
  }

  // ---------------------------------------------------------------------
  // The unit tests of the source, as lemmas
  // ---------------------------------------------------------------------

  /** A leading zero does not change the value. */
  lemma LeadingZero(s: seq<byte>)
    requires |s| > 0
    ensures BytesToUint([48] + s) == BytesToUint(s)
  {
    assert IsDigit(48);
    assert forall i :: 0 <= i < |s| ==> ([48] + s)[i + 1] == s[i];
    if AllDigits(s) {
      DecimalValuePrepend(48, s);
    } else {
      var i :| 0 <= i < |s| && !IsDigit(s[i]);
      assert !IsDigit(([48] + s)[i + 1]);
    }
  }

  /** `uint_parse`: `"01230450"` is 1230450. */
  lemma UintParseLeadingZero(s: seq<byte>)
    requires s == [48, 49, 50, 51, 48, 52, 53, 48]
    ensures BytesToUint(s) == Some(1230450)
  {
    assert AllDigits(s);
    assert s[..1][..0] == [];
    assert DecimalValue(s[..1]) == 0;
    assert s[..2][..1] == s[..1];
    assert DecimalValue(s[..2]) == 1;
    assert s[..3][..2] == s[..2];
    assert DecimalValue(s[..3]) == 12;
    assert s[..4][..3] == s[..3];
    assert DecimalValue(s[..4]) == 123;
    assert s[..5][..4] == s[..4];
    assert DecimalValue(s[..5]) == 1230;
    assert s[..6][..5] == s[..5];
    assert DecimalValue(s[..6]) == 12304;
    assert s[..7][..6] == s[..6];
    assert DecimalValue(s[..7]) == 123045;
    assert s[..7] == s[..|s| - 1];
    assert DecimalValue(s) == 1230450;
  }

  /** `uint_parse`: `"0"` is 0. */
  lemma UintParseZero()
    ensures BytesToUint([48]) == Some(0)
  {
    assert [48 as byte][..0] == [];
  }

  /** `uint_parse`: `"1127"` is 1127. */
  lemma UintParseAccepts(s: seq<byte>)
    requires s == [49, 49, 50, 55]
    ensures BytesToUint(s) == Some(1127)
  {
    assert AllDigits(s);
    assert s[..1][..0] == [];
    assert DecimalValue(s[..1]) == 1;
    assert s[..2][..1] == s[..1];
    assert DecimalValue(s[..2]) == 11;
    assert s[..3][..2] == s[..2];
    assert DecimalValue(s[..3]) == 112;
    assert s[..3] == s[..|s| - 1];
    assert DecimalValue(s) == 1127;
  }

  /** `uint_parse`, the rejected inputs: `""`, `"Hell0, w0r1d!"`, `"-100"`
      and `"+100"`. */
  lemma UintParseRejects(b: seq<byte>, c: seq<byte>, d: seq<byte>)
    requires b == [72, 101, 108, 108, 48, 44, 32, 119, 48, 114, 49, 100, 33]
    requires c == [45, 49, 48, 48] && d == [43, 49, 48, 48]
    ensures BytesToUint([]) == None
    ensures BytesToUint(b) == None
    ensures BytesToUint(c) == None
    ensures BytesToUint(d) == None
  {
    assert !IsDigit(b[0]) && !IsDigit(c[0]) && !IsDigit(d[0]);
  }

  /** `bytes_uppercase`: the lower-case alphabet becomes the upper-case one. */
  lemma UppercaseAlphabet(s: seq<byte>)
    requires |s| == 26 && forall i :: 0 <= i < 26 ==> s[i] as int == 97 + i
    ensures forall i :: 0 <= i < 26 ==> Uppercase(s)[i] as int == 65 + i
  {
    assert forall i :: 0 <= i < 26 ==> IsLower(s[i]);
  }

  /** Surplus arguments are ignored: `"NOOP 1 2 3 4\r\n"` is `NOOP`. */
  lemma ParseNoOpSurplus(tail: seq<byte>)
    requires tail == [32, 49, 32, 50, 32, 51, 32, 52]
    ensures Parse(NOOP + tail + CRLF) == Success(NoOp)
  {
    VerbSpelling();
    TokenizeVerb(NOOP, tail);
    ParseBody(NOOP + tail);
    VerbIsUpper(NOOP);
  }

  /** A frame of one word is dispatched on that word alone. */
  lemma ParseOneWord(v: seq<byte>)
    requires |v| > 0 && NoSpace(v)
    ensures Parse(v + CRLF) == Dispatch([v])
  {
    TokenizeVerb(v, []);
    assert v + [] == v;
    ParseBody(v);
  }

  /** A frame of well-formed words is dispatched on those words. */
  lemma ParseWords(words: seq<seq<byte>>)
    requires |words| > 0
    requires forall k :: 0 <= k < |words| ==> WellFormedArg(words[k])
    ensures Parse(JoinSpaces(words) + CRLF) == Dispatch(words)
  {
    TokenizeJoin(words);
    ParseBody(JoinSpaces(words));
  }

  /** Two words joined by one space. */
  lemma JoinTwo(x: seq<byte>, y: seq<byte>)
    ensures JoinSpaces([x, y]) == x + [SP] + y
  {
    assert [x, y][..1] == [x];
  }

  /** Three words joined by single spaces. */
  lemma JoinThree(x: seq<byte>, y: seq<byte>, z: seq<byte>)
    ensures JoinSpaces([x, y, z]) == x + [SP] + y + [SP] + z
  {
    assert [x, y, z][..2] == [x, y];
    JoinTwo(x, y);
  }

  /** A single digit is its own value. */
  lemma UintOneDigit(a: seq<byte>)
    requires |a| == 1 && IsDigit(a[0])
    ensures BytesToUint(a) == Some(a[0] as int - 48)
  {
    assert a[..0] == [];
  }

  /** `"5"` and `"10"` as numbers. */
  lemma UintFiveTen(a: seq<byte>, b: seq<byte>)
    requires a == [53] && b == [49, 48]
    ensures BytesToUint(a) == Some(5) && BytesToUint(b) == Some(10)
  {
    UintOneDigit(a);
    assert b[..1][..0] == [];
    assert AllDigits(b);
    assert DecimalValue(b[..1]) == 1;
    assert b[..1] == b[..|b| - 1];
    assert DecimalValue(b) == 10;
  }

  /** `"TOP 5 10\r\n"` asks for ten lines of message 5. */
  lemma ParseTopExample(a: seq<byte>, b: seq<byte>)
    requires a == [53] && b == [49, 48]
    ensures Parse(TOP + [SP] + a + [SP] + b + CRLF) == Success(Top(5, 10))
  {
    VerbSpelling();
    VerbIsWord(TOP);
    JoinThree(TOP, a, b);
    ParseWords([TOP, a, b]);
    UintFiveTen(a, b);
    DispatchTop(a, b, 5, 10);
  }

  /** `USER` takes its argument verbatim. */
  lemma ParseUser(name: seq<byte>)
    requires WellFormedArg(name)
    ensures Parse(USER + [SP] + name + CRLF) == Success(Username(name))
  {
    VerbSpelling();
    VerbIsWord(USER);
    JoinTwo(USER, name);
    ParseWords([USER, name]);
    DispatchUser(name);
  }

  /** A verb that upper-cases to `USER`, then a name: the name is kept as
      written. */
  lemma MixedCaseUser(v: seq<byte>, name: seq<byte>)
    requires |v| > 0 && NoSpace(v) && Uppercase(v) == USER && WellFormedArg(name)
    ensures Parse(v + [SP] + name + CRLF) == Success(Username(name))
  {
    VerbSpelling();
    AppendAssociative(v, [SP], name);
    ParseVerbCaseInsensitive(v, [SP] + name);
    AppendAssociative(USER, [SP], name);
    ParseUser(name);
  }

  /** `"usEr mghebrial\r\n"`: the verb is matched in any case, the user
      name is kept as written. */
  lemma ParseUserMixedCase(v: seq<byte>, name: seq<byte>)
    requires v == [117, 115, 69, 114] && name == [109, 103, 104, 101, 98, 114, 105, 97, 108]
    ensures Parse(v + [SP] + name + CRLF) == Success(Username(name))
  {
    VerbSpelling();
    assert Uppercase(v) == USER;
    PrintableWord(name);
    MixedCaseUser(v, name);
  }

  /** A non-empty word of octets above the space is a well-formed argument. */
  lemma PrintableWord(a: seq<byte>)
    requires |a| > 0 && forall i :: 0 <= i < |a| ==> a[i] > SP
    ensures WellFormedArg(a)
  {
  }

  /** `"quit\r\n"` is `QUIT`: the verb is matched after upper-casing. */
  lemma ParseQuitLower(v: seq<byte>)
    requires v == [113, 117, 105, 116]
    ensures Parse(v + CRLF) == Success(Quit)
  {
    VerbSpelling();
    assert Uppercase(v) == QUIT;
    ParseVerbCaseInsensitive(v, []);
    assert v + [] == v && QUIT + [] == QUIT;
    VerbIsWord(QUIT);
    ParseOneWord(QUIT);
    DispatchQuit();
  }

  /** `"LIST \r\n"` lists everything: the trailing space makes no token. */
  lemma ParseListSpace()
    ensures Parse(LIST + [SP] + CRLF) == Success(List(None))
  {
    VerbSpelling();
    TokenizeVerb(LIST, [SP]);
    assert Tokenize([SP][1..]) == [];
    ParseBody(LIST + [SP]);
    DispatchListAll();
  }

  /** `"LIST 1\r\n"` lists message 1. */
  lemma ParseListOne(a: seq<byte>)
    requires a == [49]
    ensures Parse(LIST + [SP] + a + CRLF) == Success(List(Some(1)))
  {
    VerbSpelling();
    VerbIsWord(LIST);
    assert WellFormedArg(a);
    JoinTwo(LIST, a);
    ParseWords([LIST, a]);
    UintOneDigit(a);
    DispatchList(a, 1);
  }

  /** `"1234321"` as a number. */
  lemma UintSevenDigits(a: seq<byte>)
    requires a == [49, 50, 51, 52, 51, 50, 49]
    ensures BytesToUint(a) == Some(1234321)
  {
    assert AllDigits(a);
    assert a[..1][..0] == [];
    assert DecimalValue(a[..1]) == 1;
    assert a[..2][..1] == a[..1];
    assert DecimalValue(a[..2]) == 12;
    assert a[..3][..2] == a[..2];
    assert DecimalValue(a[..3]) == 123;
    assert a[..4][..3] == a[..3];
    assert DecimalValue(a[..4]) == 1234;
    assert a[..5][..4] == a[..4];
    assert DecimalValue(a[..5]) == 12343;
    assert a[..6][..5] == a[..5];
    assert DecimalValue(a[..6]) == 123432;
    assert a[..6] == a[..|a| - 1];
    assert DecimalValue(a) == 1234321;
  }

  /** `"RETR 1234321\r\n"` retrieves message 1234321. */
  lemma ParseRetrieveExample(a: seq<byte>)
    requires a == [49, 50, 51, 52, 51, 50, 49]
    ensures Parse(RETR + [SP] + a + CRLF) == Success(Retrieve(1234321))
  {
    VerbSpelling();
    VerbIsWord(RETR);
    PrintableWord(a);
    JoinTwo(RETR, a);
    ParseWords([RETR, a]);
    UintSevenDigits(a);
    DispatchRetrieve(a, 1234321);
  }

  /** `"APOP mrose c4c9334bac560ecc979e58001b3e22fb\r\n"`: the name and
      the digest are kept as written. */
  lemma ParseApopExample(u: seq<byte>, d: seq<byte>)
    requires u == [109, 114, 111, 115, 101]
    requires d == [99, 52, 99, 57, 51, 51, 52, 98, 97, 99, 53, 54, 48, 101, 99, 99,
                   57, 55, 57, 101, 53, 56, 48, 48, 49, 98, 51, 101, 50, 50, 102, 98]
    ensures Parse(APOP + [SP] + u + [SP] + d + CRLF) == Success(Apop(u, d))
  {
    VerbSpelling();
    VerbIsWord(APOP);
    PrintableWord(u);
    PrintableWord(d);
    JoinThree(APOP, u, d);
    ParseWords([APOP, u, d]);
    DispatchApop(u, d);
  }
}
