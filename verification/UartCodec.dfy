/** The two text formats on the UART: command frames "S:CMD:INTENSITY:ID:E" and responses "S:RESP:ID:E". */
module UartCodec {
  import opened Numerals

  const CMD_LEN: nat := 20
  const RESPONSE_LEN: nat := 13

  type uint8 = x: nat | x < 0x100
  type uint16 = x: nat | x < 0x1_0000
  type uint32 = x: nat | x < 0x1_0000_0000

  /** `cmd` is an enum, which "%u" prints as an unsigned int. */
  datatype DataCmd = DataCmd(id: uint16, cmd: uint32, intensity: uint8)

  // ---------- Command frames ----------

  /** snprintf into a buffer of `size` characters, one of them for the terminator. */
  function Snprintf(size: nat, text: string): string
    requires size > 0
  {
    if |text| < size then text else text[..size - 1]
  }

  function CommandText(c: DataCmd): string {
    "S:" + Dec(c.cmd) + (":" + Dec(c.intensity) + (":" + Dec(c.id) + ":E"))
  }

  /** parse_cmd, and the formatting step of ready_handler, which uses the same format and size. */
  function FormatCommand(c: DataCmd): string { Snprintf(CMD_LEN, CommandText(c)) }

  const STOP_FRAME := "S:4:0:0:E"

  /** A decimal number and what follows it. */
  function ReadNumber(s: string): Option<(nat, string)> {
    var d := Digits(s);
    if d == "" then None else Some((DecValue(d), s[|d|..]))
  }

  /** A number after a mark, and what follows it. */
  function ReadField(s: string, mark: string): Option<(nat, string)> {
    if mark <= s then ReadNumber(s[|mark|..]) else None
  }

  /** The receiver's side of a command frame: (cmd, intensity, id). */
  function DecodeCommand(s: string): Option<(nat, nat, nat)> {
    match ReadField(s, "S:")
    case None => None
    case Some((cmd, s1)) =>
      match ReadField(s1, ":")
      case None => None
      case Some((intensity, s2)) =>
        match ReadField(s2, ":")
        case None => None
        case Some((id, s3)) => if s3 == ":E" then Some((cmd, intensity, id)) else None
  }

  lemma ReadFieldOf(mark: string, n: nat, rest: string)
    requires rest == "" || !IsDigit(rest[0])
    ensures ReadField(mark + Dec(n) + rest, mark) == Some((n, rest))
  {
    hide Dec, DecValue, Digits;
    DigitsOf(Dec(n), rest);
    DecRoundTrip(n);
    var s := mark + Dec(n) + rest;
    assert s[|mark|..] == Dec(n) + rest;
    assert mark == s[..|mark|];
  }

  lemma DecodeText(c: DataCmd)
    ensures DecodeCommand(CommandText(c)) == Some((c.cmd, c.intensity, c.id))
  {
    hide ReadField;
    ReadFieldOf("S:", c.cmd, ":" + Dec(c.intensity) + (":" + Dec(c.id) + ":E"));
    ReadFieldOf(":", c.intensity, ":" + Dec(c.id) + ":E");
    ReadFieldOf(":", c.id, ":E");
  }

  lemma DecodedEndsInE(s: string)
    requires DecodeCommand(s).Some?
    ensures s != "" && s[|s| - 1] == 'E'
  {
  }

  function TextDigits(c: DataCmd): nat { |Dec(c.cmd)| + |Dec(c.intensity)| + |Dec(c.id)| }

  /** 'E' is the last character of a frame and no other. */
  lemma OnlyLastIsE(c: DataCmd, i: nat)
    ensures |CommandText(c)| == 6 + TextDigits(c)
    ensures i < |CommandText(c)| - 1 ==> CommandText(c)[i] != 'E'
  {
  }

  /** The exact reach of the 20-byte buffer: a frame decodes back to its command when the three numbers
      have at most 13 digits together, and otherwise does not decode at all. */
  lemma CommandRoundTrip(c: DataCmd)
    ensures DecodeCommand(FormatCommand(c))
         == if TextDigits(c) <= 13 then Some((c.cmd, c.intensity, c.id)) else None
  {
    OnlyLastIsE(c, 18);
    if TextDigits(c) <= 13 {
      DecodeText(c);
    } else if DecodeCommand(FormatCommand(c)).Some? {
      DecodedEndsInE(FormatCommand(c));
      assert false;
    }
  }

  /** A command that is cut off: its numbers have 14 digits, and its type is the least with six. */
  lemma CommandTooLong()
    ensures var c := DataCmd(65535, 100_000, 255);
            DecodeCommand(CommandText(c)) == Some((100_000, 255, 65535)) && DecodeCommand(FormatCommand(c)) == None
  {
    hide DecodeCommand, FormatCommand, CommandText;
    var c := DataCmd(65535, 100_000, 255);
    assert Pow10(2) == 10 * Pow10(1) && Pow10(4) == 10 * Pow10(3);
    SmallPowers();
    DecLength(c.cmd, 5);
    DecLength(c.intensity, 2);
    DecLength(c.id, 4);
    DecodeText(c);
    CommandRoundTrip(c);
  }

  /** Every command type up to five digits fits, with any intensity and id. */
  lemma OrdinaryCommandsFit(c: DataCmd)
    requires c.cmd <= 99999
    ensures DecodeCommand(FormatCommand(c)) == Some((c.cmd, c.intensity, c.id))
  {
    SmallPowers();
    DecLength(c.cmd, 5);
    DecLength(c.intensity, 3);
    DecLength(c.id, 5);
    CommandRoundTrip(c);
  }

  /** On the wire, a STOP frame is not a command with a nonzero id, truncated or not. */
  lemma CommandIsNotStop(c: DataCmd)
    requires c.id != 0
    ensures FormatCommand(c) != STOP_FRAME
  {
    hide DecodeCommand, FormatCommand, CommandText;
    CommandRoundTrip(c);
    DecodeText(DataCmd(0, 4, 0));
    StopText();
  }

  lemma StopText()
    ensures CommandText(DataCmd(0, 4, 0)) == STOP_FRAME
  {
    assert Dec(4) == "4" && Dec(0) == "0";
  }

  // ---------- Responses ----------

  const RESP_ACK := 0
  const RESP_READY := 1
  const RESP_ERR_INVALID_COMMAND := 3
  const RESP_ERR_INVALID_PARAMS := 4

  datatype DataParse = DataParse(response: int, id: uint16)

  /** What parse_data returns when it rejects: both fields are -1, the id as a uint16_t. */
  const REJECTED := DataParse(-1, 0xFFFF)

  function ResponseText(code: nat, id: nat): string { "S:" + Dec(code) + (":" + Dec(id) + ":E") }

  predicate IsLineEnd(c: char) { c == '\r' || c == '\n' }

  function TrimLineEnds(s: string): (r: string)
    ensures r <= s && (r != "" ==> r[|r| - 1] != '\r' && r[|r| - 1] != '\n')
    ensures forall i :: |r| <= i < |s| ==> s[i] == '\r' || s[i] == '\n'
  {
    if s != "" && IsLineEnd(s[|s| - 1]) then TrimLineEnds(s[..|s| - 1]) else s
  }

  /** The C string at the start of a buffer. */
  function UpToNul(s: string): (r: string)
    ensures r <= s && '\0' !in r && (|r| < |s| ==> s[|r|] == '\0')
  {
    if s == "" || s[0] == '\0' then "" else [s[0]] + UpToNul(s[1..])
  }

  predicate IsSpace(c: char) { c == ' ' || '\t' <= c <= '\r' }

  function SkipSpace(s: string): (r: string)
    ensures |r| <= |s|
  {
    if s != "" && IsSpace(s[0]) then SkipSpace(s[1..]) else s
  }

  /** "%d": blanks, an optional sign, digits. */
  function ScanInt(s: string): Option<(int, string)> {
    var t := SkipSpace(s);
    if t != "" && t[0] == '-' then
      match ReadNumber(t[1..])
      case Some((n, rest)) => Some((-(n as int), rest))
      case None => None
    else
      match ReadNumber(if t != "" && t[0] == '+' then t[1..] else t)
      case Some((n, rest)) => Some((n, rest))
      case None => None
  }

  /** A ':' and then "%d". */
  function ScanColonInt(s: string): Option<(int, string)> {
    if s != "" && s[0] == ':' then ScanInt(s[1..]) else None
  }

  /** sscanf with "%c:%d:%d:%c", when all four items are assigned. */
  function Scan(s: string): Option<(char, int, int, char)> {
    if s == "" then None else
    match ScanColonInt(s[1..])
    case None => None
    case Some((response, s1)) =>
      match ScanColonInt(s1)
      case None => None
      case Some((id, s2)) =>
        if |s2| >= 2 && s2[0] == ':' then Some((s[0], response, id, s2[1])) else None
  }

  /** parse_data on the `|s|` bytes that were read. */
  function ParseResponse(s: string): DataParse {
    if s == "" || |s| > RESPONSE_LEN then REJECTED
    else
      var t := TrimLineEnds(s);
      if EndsInE(t) then ParseFrame(UpToNul(t)) else REJECTED
  }

  predicate EndsInE(t: string) { t != "" && t[|t| - 1] == 'E' }

  function ParseFrame(s: string): DataParse {
    match Scan(s)
    case None => REJECTED
    case Some((start, response, id, end)) =>
      if start == 'S' && end == 'E' then DataParse(response, id % 0x1_0000) else REJECTED
  }

  lemma {:induction false} TrimIsUndone(s: string, ends: string)
    requires s != "" && !IsLineEnd(s[|s| - 1])
    requires forall i :: 0 <= i < |ends| ==> IsLineEnd(ends[i])
    ensures TrimLineEnds(s + ends) == s
  {
    if ends == "" {
      assert s + ends == s;
    } else {
      TrimIsUndone(s, ends[..|ends| - 1]);
      assert (s + ends)[..|s + ends| - 1] == s + ends[..|ends| - 1];
    }
  }

  lemma {:induction false} UpToNulStops(s: string, rest: string)
    requires rest != "" && rest[0] == '\0'
    ensures UpToNul(s + rest) == UpToNul(s)
  {
    if s == "" {
      assert s + rest == rest;
    } else {
      UpToNulStops(s[1..], rest);
      assert (s + rest)[1..] == s[1..] + rest;
    }
  }

  lemma {:induction false} NoNul(s: string)
    requires '\0' !in s
    ensures UpToNul(s) == s
  {
    if s != "" { NoNul(s[1..]); }
  }

  lemma ScanDec(n: nat, rest: string)
    requires rest != "" && !IsDigit(rest[0])
    ensures ScanInt(Dec(n) + rest) == Some((n, rest))
  {
    var s := Dec(n) + rest;
    assert IsDigit(s[0]) && SkipSpace(s) == s;
    DigitsOf(Dec(n), rest);
    DecRoundTrip(n);
  }

  lemma ScanColonDec(n: nat, rest: string)
    requires rest != "" && !IsDigit(rest[0])
    ensures ScanColonInt(":" + Dec(n) + rest) == Some((n, rest))
  {
    hide ScanInt;
    assert (":" + Dec(n) + rest)[1..] == Dec(n) + rest;
    ScanDec(n, rest);
  }

  lemma ScanResponse(code: nat, id: nat)
    ensures Scan(ResponseText(code, id)) == Some(('S', code, id, 'E'))
  {
    hide ScanColonInt;
    var rest := ":" + Dec(id) + ":E";
    ScanColonDec(code, rest);
    ScanColonDec(id, ":E");
    assert ResponseText(code, id)[1..] == ":" + Dec(code) + rest;
  }

  /** The parser inverts the response format, for every code and id that the 13 bytes have room for and
      any line ending the sender adds. */
  lemma ResponseRoundTrip(code: nat, id: nat, ends: string)
    requires forall i :: 0 <= i < |ends| ==> IsLineEnd(ends[i])
    requires |ResponseText(code, id) + ends| <= RESPONSE_LEN
    ensures ParseResponse(ResponseText(code, id) + ends) == DataParse(code, id % 0x1_0000)
  {
    TrimIsUndone(ResponseText(code, id), ends);
    NoNul(ResponseText(code, id));
    ScanResponse(code, id);
  }

  /** One-digit codes and 16-bit ids always fit, with up to two bytes of line ending. */
  lemma ResponsesFit(code: nat, id: uint16, ends: string)
    requires code <= 9 && |ends| <= 2 && forall i :: 0 <= i < |ends| ==> IsLineEnd(ends[i])
    ensures ParseResponse(ResponseText(code, id) + ends) == DataParse(code, id)
  {
    hide ParseResponse, ResponseText, Pow10;
    SmallPowers();
    DecLength(code, 1);
    DecLength(id, 5);
    ResponseLength(code, id);
    ResponseRoundTrip(code, id, ends);
  }

  lemma ResponseLength(code: nat, id: nat)
    ensures |ResponseText(code, id)| == 5 + |Dec(code)| + |Dec(id)|
  {
  }

  /** `n` has at most `digits` digits. */
  ghost predicate Within(n: int, digits: nat) { -(Pow10(digits) as int) < n < Pow10(digits) }

  lemma WiderWithin(n: int, i: nat, j: nat)
    requires Within(n, i) && i <= j
    ensures Within(n, j)
  {
    PowGrows(i, j);
  }

  lemma NumberIsShort(s: string, n: nat, rest: string)
    requires ReadNumber(s) == Some((n, rest))
    ensures |rest| < |s| && Within(n, |s| - |rest|) && Within(-(n as int), |s| - |rest|)
  {
    DecValueBound(Digits(s));
  }

  lemma IntIsShort(s: string, n: int, rest: string)
    requires ScanInt(s) == Some((n, rest))
    ensures |rest| < |s| && Within(n, |s| - |rest|)
  {
    hide ReadNumber, Within;
    var t := SkipSpace(s);
    var signed := t != "" && (t[0] == '-' || t[0] == '+');
    var u := if signed then t[1..] else t;
    var m := ReadNumber(u).value.0;
    NumberIsShort(u, m, rest);
    WiderWithin(n, |u| - |rest|, |s| - |rest|);
  }

  lemma ScannedIsShort(s: string, n: int, rest: string)
    requires ScanColonInt(s) == Some((n, rest))
    ensures |rest| <= |s| - 2 && Within(n, |s| - |rest| - 1)
  {
    hide ScanInt, Within;
    IntIsShort(s[1..], n, rest);
  }

  lemma {:induction false} PowGrows(i: nat, j: nat)
    requires i <= j
    ensures Pow10(i) <= Pow10(j)
  {
    if i < j { PowGrows(i, j - 1); }
  }

  /** No frame that is accepted overflows an int: at most seven characters are left for each number. */
  lemma AcceptedNumbersAreSmall(s: string)
    requires |s| <= RESPONSE_LEN && Scan(s).Some?
    ensures var (_, response, id, _) := Scan(s).value;
            -10_000_000 < response < 10_000_000 && -10_000_000 < id < 10_000_000
  {
    hide ScanColonInt, Pow10;
    var (response, s1) := ScanColonInt(s[1..]).value;
    var (id, s2) := ScanColonInt(s1).value;
    ScannedIsShort(s[1..], response, s1);
    ScannedIsShort(s1, id, s2);
    WiderWithin(response, |s| - 1 - |s1| - 1, 7);
    WiderWithin(id, |s1| - |s2| - 1, 7);
    SmallPowers();
  }

  // ---------- Exactly what is accepted ----------

  /** Blanks, an optional sign and digits, and the number they denote. */
  predicate IsNumber(a: string, blanks: string, sign: string, digits: string, n: int) {
    && a == blanks + sign + digits
    && (forall i :: 0 <= i < |blanks| ==> blanks[i] == ' ' || '\t' <= blanks[i] <= '\r')
    && (sign == "" || sign == "+" || sign == "-")
    && digits != "" && AllDigits(digits) && n == if sign == "-" then -(DecValue(digits) as int) else DecValue(digits)
  }

  ghost predicate Denotes(a: string, n: int) {
    exists blanks: string, sign: string, digits: string :: IsNumber(a, blanks, sign, digits, n)
  }

  /** "S:a:b:E" and possibly more, where `a` and `b` denote the code and the id. */
  ghost predicate IsResponse(u: string, a: string, b: string, rest: string, code: int, id: int) {
    u == "S:" + a + (":" + b + (":E" + rest)) && Denotes(a, code) && Denotes(b, id)
  }

  ghost predicate Responds(u: string, code: int, id: int) {
    exists a: string, b: string, rest: string :: IsResponse(u, a, b, rest, code, id)
  }

  /** The C string that is left of the bytes read, if there are 1 to 13 and the last that is no line end is 'E'. */
  function Frame(s: string): Option<string> {
    var t := TrimLineEnds(s);
    if 1 <= |s| <= 13 && t != "" && t[|t| - 1] == 'E' then Some(UpToNul(t)) else None
  }

  lemma {:induction false} SkipsBlanks(blanks: string, rest: string)
    requires forall i :: 0 <= i < |blanks| ==> blanks[i] == ' ' || '\t' <= blanks[i] <= '\r'
    requires rest != "" && !IsSpace(rest[0])
    ensures SkipSpace(blanks + rest) == rest
  {
    if blanks == "" {
      assert blanks + rest == rest;
    } else {
      SkipsBlanks(blanks[1..], rest);
      assert (blanks + rest)[1..] == blanks[1..] + rest;
    }
  }

  lemma {:induction false} SkippedBlanks(s: string) returns (blanks: string)
    ensures s == blanks + SkipSpace(s)
    ensures forall i :: 0 <= i < |blanks| ==> blanks[i] == ' ' || '\t' <= blanks[i] <= '\r'
  {
    if s != "" && IsSpace(s[0]) {
      var more := SkippedBlanks(s[1..]);
      blanks := [s[0]] + more;
      assert s == [s[0]] + s[1..];
    } else {
      blanks := "";
      assert "" + s == s;
    }
  }

  lemma DigitsAreRead(digits: string, rest: string)
    requires digits != "" && AllDigits(digits) && rest != "" && !IsDigit(rest[0])
    ensures ReadNumber(digits + rest) == Some((DecValue(digits), rest))
  {
    DigitsOf(digits, rest);
  }

  lemma NumberIsScanned(a: string, n: int, rest: string)
    requires Denotes(a, n) && rest != "" && !IsDigit(rest[0])
    ensures ScanInt(a + rest) == Some((n, rest))
  {
    hide ReadNumber, DecValue;
    var blanks, sign, digits :| IsNumber(a, blanks, sign, digits, n);
    assert a + rest == blanks + (sign + (digits + rest));
    assert sign == "" ==> sign + (digits + rest) == digits + rest;
    SkipsBlanks(blanks, sign + (digits + rest));
    DigitsAreRead(digits, rest);
    assert sign != "" ==> (sign + (digits + rest))[1..] == digits + rest;
  }

  lemma ReadDigits(u: string, n: nat, rest: string) returns (digits: string)
    requires ReadNumber(u) == Some((n, rest))
    ensures u == digits + rest && digits != "" && AllDigits(digits) && n == DecValue(digits)
  {
    digits := Digits(u);
  }

  lemma SignedDigits(t: string, n: int, rest: string) returns (sign: string, digits: string)
    requires ScanInt(t) == Some((n, rest)) && SkipSpace(t) == t
    ensures t == sign + digits + rest && IsNumber(sign + digits, "", sign, digits, n)
  {
    hide ReadNumber, DecValue;
    sign := if t != "" && (t[0] == '-' || t[0] == '+') then t[..1] else "";
    var u := t[|sign|..];
    assert t == sign + u;
    digits := ReadDigits(u, if sign == "-" then -n else n, rest);
    assert "" + sign + digits == sign + digits;
  }

  lemma SkippedOnce(s: string)
    ensures SkipSpace(SkipSpace(s)) == SkipSpace(s)
  {
  }

  lemma ScannedIsNumber(s: string, n: int, rest: string) returns (a: string)
    requires ScanInt(s) == Some((n, rest))
    ensures s == a + rest && Denotes(a, n)
  {
    hide DecValue, ReadNumber, SkipSpace;
    var blanks := SkippedBlanks(s);
    SkippedOnce(s);
    var sign, digits := SignedDigits(SkipSpace(s), n, rest);
    a := blanks + sign + digits;
    assert s == a + rest;
    assert IsNumber(a, blanks, sign, digits, n);
  }

  lemma ColonIntIsScanned(a: string, n: int, rest: string)
    requires Denotes(a, n) && rest != "" && !IsDigit(rest[0])
    ensures ScanColonInt(":" + a + rest) == Some((n, rest))
  {
    hide ScanInt, Denotes;
    NumberIsScanned(a, n, rest);
    assert (":" + a + rest)[1..] == a + rest;
  }

  lemma ScannedColonInt(s: string, n: int, rest: string) returns (a: string)
    requires ScanColonInt(s) == Some((n, rest))
    ensures s == ":" + a + rest && Denotes(a, n)
  {
    hide ScanInt, Denotes;
    a := ScannedIsNumber(s[1..], n, rest);
    assert s == [s[0]] + s[1..];
  }

  lemma ResponseIsScanned(u: string, code: int, id: int)
    requires Responds(u, code, id)
    ensures Scan(u) == Some(('S', code, id, 'E'))
  {
    hide ScanColonInt, Denotes;
    var a, b, rest :| IsResponse(u, a, b, rest, code, id);
    var end := ":E" + rest;
    ColonIntIsScanned(b, id, end);
    ColonIntIsScanned(a, code, ":" + b + end);
    assert u[1..] == ":" + a + (":" + b + end);
  }

  lemma ScannedIsResponse(u: string, code: int, id: int)
    requires Scan(u) == Some(('S', code, id, 'E'))
    ensures Responds(u, code, id)
  {
    hide ScanColonInt, Denotes;
    var s1 := ScanColonInt(u[1..]).value.1;
    var a := ScannedColonInt(u[1..], code, s1);
    var s2 := ScanColonInt(s1).value.1;
    var b := ScannedColonInt(s1, id, s2);
    assert s2 == ":E" + s2[2..];
    assert u == "S" + u[1..];
    assert u == "S:" + a + (":" + b + (":E" + s2[2..]));
    assert IsResponse(u, a, b, s2[2..], code, id);
  }

  /** The parser over all reads: the code, and the id as a uint16_t, of a response; -1 and 65535 otherwise. */
  lemma ParseExactly(s: string)
    ensures forall code: int, id: int :: Frame(s).Some? && Responds(Frame(s).value, code, id) ==>
              ParseResponse(s).response == code && ParseResponse(s).id as int == id % 0x1_0000
    ensures (forall code: int, id: int :: Frame(s).Some? ==> !Responds(Frame(s).value, code, id)) ==>
              ParseResponse(s).response == -1 && ParseResponse(s).id == 65535
  {
    hide Scan, Responds, TrimLineEnds, UpToNul;
    if Frame(s).Some? {
      var u := Frame(s).value;
      forall code: int, id: int | Responds(u, code, id) ensures Scan(u) == Some(('S', code, id, 'E')) {
        ResponseIsScanned(u, code, id);
      }
      if Scan(u).Some? && Scan(u).value.0 == 'S' && Scan(u).value.3 == 'E' {
        ScannedIsResponse(u, Scan(u).value.1, Scan(u).value.2);
      }
    }
  }

  /** The replies with code `code`: -1 for those that are no response. */
  lemma ReplyCode(s: string, code: int)
    requires code != -1
    ensures ParseResponse(s).response == code
            <==> Frame(s).Some? && exists id: int :: Responds(Frame(s).value, code, id)
  {
    hide ParseResponse, Responds, Frame;
    ParseExactly(s);
  }

  /** So the retry loop is ended by these bytes and no others, in particular not by none. */
  lemma EndsRetry(s: string)
    ensures ParseResponse(s).response == RESP_ACK
            <==> Frame(s).Some? && exists id: int :: Responds(Frame(s).value, 0, id)
    ensures ParseResponse(s).response == RESP_READY
            <==> Frame(s).Some? && exists id: int :: Responds(Frame(s).value, 1, id)
    ensures s == "" ==> ParseResponse(s).response == -1
  {
    hide ParseResponse, Responds;
    ReplyCode(s, 0);
    ReplyCode(s, 1);
    ParseExactly(s);
  }

  predicate FitsInt(n: int) { -0x8000_0000 <= n < 0x8000_0000 }

  /** In any frame, rejected ones included, only the first number can be beyond int, and then the frame is
      rejected: at most nine characters are left for the second. */
  lemma OnlyFirstOverflows(s: string)
    requires s != "" && |s| <= RESPONSE_LEN && ScanColonInt(s[1..]).Some?
    ensures var (response, s1) := ScanColonInt(s[1..]).value;
            (Scan(s).Some? ==> FitsInt(response))
            && (ScanColonInt(s1).Some? ==> FitsInt(ScanColonInt(s1).value.0))
  {
    hide ScanColonInt, Pow10;
    var (response, s1) := ScanColonInt(s[1..]).value;
    ScannedIsShort(s[1..], response, s1);
    if Scan(s).Some? { AcceptedNumbersAreSmall(s); }
    if ScanColonInt(s1).Some? {
      var (id, s2) := ScanColonInt(s1).value;
      ScannedIsShort(s1, id, s2);
      WiderWithin(id, |s1| - |s2| - 1, 9);
      NinePlaces();
    }
  }

  lemma NinePlaces()
    ensures Pow10(9) == 1_000_000_000
  {
    SmallPowers();
    assert Pow10(9) == 10 * Pow10(8) == 100 * Pow10(7);
  }

  /** It can be: the first number of this frame, which has no second, is beyond int. */
  lemma FirstOverflows()
    ensures var s := "S:" + Dec(9_999_999_999) + "E";
            |s| == RESPONSE_LEN && EndsInE(s) && Scan(s) == None && ParseResponse(s) == REJECTED
            && ScanColonInt(s[1..]) == Some((9_999_999_999, "E")) && !FitsInt(9_999_999_999)
  {
    hide ScanColonInt, Dec, Pow10;
    var s := "S:" + Dec(9_999_999_999) + "E";
    TenNines();
    assert s[1..] == ":" + Dec(9_999_999_999) + "E";
    ScanColonDec(9_999_999_999, "E");
    NoColon("E");
    assert TrimLineEnds(s) == s;
    NoNul(s);
  }

  lemma NoColon(s: string)
    requires s != "" && s[0] != ':'
    ensures ScanColonInt(s) == None
  {
  }

  lemma TenNines()
    ensures |Dec(9_999_999_999)| == 10
  {
    SmallPowers();
    assert Pow10(10) == 10 * Pow10(9);
    NinePlaces();
    DecLength(9_999_999_999, 10);
    DecLength(9_999_999_999, 9);
  }

  /** parse_data: trims `data` in place and reads it as a C string. */
  method ParseData(data: array<char>, readBytes: int) returns (final: DataParse)
    requires data.Length == RESPONSE_LEN + 1
    modifies data
    ensures final == if readBytes <= 0 || readBytes > RESPONSE_LEN then REJECTED
                     else ParseResponse(old(data[..readBytes]))
    ensures readBytes <= 0 || readBytes > RESPONSE_LEN ==> final.response == -1 && final.id == 65535
    ensures data[..] == if 0 < readBytes <= RESPONSE_LEN && EndsInE(TrimLineEnds(old(data[..readBytes])))
                        then old(data[..])[|TrimLineEnds(old(data[..readBytes]))| := '\0']
                        else old(data[..])
  {
    final := REJECTED;
    if readBytes <= 0 || readBytes > RESPONSE_LEN {
      return;
    }
    var n := readBytes;
    while n > 0 && IsLineEnd(data[n - 1])
      invariant 0 <= n <= readBytes
      invariant TrimLineEnds(data[..n]) == TrimLineEnds(data[..readBytes])
    {
      assert data[..n][..n - 1] == data[..n - 1];
      n := n - 1;
    }
    assert TrimLineEnds(data[..readBytes]) == data[..n];
    if n == 0 || data[n - 1] != 'E' {
      return;
    }
    data[n] := '\0';
    UpToNulStops(data[..n], data[n..]);
    assert data[..] == data[..n] + data[n..];
    final := ParseFrame(UpToNul(data[..]));
  }
}
