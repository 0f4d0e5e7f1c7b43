/** The older value lexer in LexicalAnalyzer.hpp. Unlike the range scanner
    it copies what it reads into a value buffer, classifies numbers with a
    small state machine, and unescapes quoted strings while it scans them.

    The buffer is the C string handed to SetInputBuffer, so it holds bytes
    (characters below 0x100) and no NUL; reading at its size yields NUL as
    std::string does. Characters are signed, so the byte 0xFF compares
    equal to EOF and ends the input like NUL does. */
module ValueLexer {
  import opened Wrappers

  /** LexicalTokenType. */
  datatype TokenType =
    | EndOfBuffer
    | KeySeparator
    | ValueSeparator
    | AnchorPrefix
    | AliasPrefix
    | CommentPrefix
    | DirectivePrefix
    | SequenceBlockPrefix
    | SequenceFlowBegin
    | SequenceFlowEnd
    | MappingFlowBegin
    | MappingFlowEnd
    | NullValue
    | BooleanValue
    | SignedIntValue
    | UnsignedIntValue
    | FloatNumberValue
    | StringValue

  /** The exceptions the lexer throws, one per message, and reading past
      the end of the buffer, which the C++ code leaves undefined. */
  datatype LexError =
    | EmptyInput
    | MissingSpaceAfterColon
    | ReservedIndicator(c: char)
    | InvalidNumberChar
    | InvalidNegativeNumber
    | NoDigitAfterDecimalPoint
    | NoDigitAfterExponentSign
    | MultipleDecimalPoints
    | InvalidDoubleQuote
    | InvalidSingleQuote
    | UnclosedDoubleQuote
    | UnclosedSingleQuote
    | EscapeOutsideDoubleQuote
    | UnsupportedEscape
    | NonHexChar
    | UnsupportedChar(c: char)
    | EmptyValue
    | InvalidNull
    | InvalidBoolean
    | TrimEmptyValue
    | ReadPastEnd

  /** A buffer SetInputBuffer accepts apart from emptiness: bytes, no NUL. */
  predicate CString(buf: string) {
    forall k :: 0 <= k < |buf| ==> 0 < buf[k] as int < 0x100
  }

  /** `m_input_buffer[i]` for `i` up to the buffer's size. */
  function At(buf: string, i: nat): char
    requires i <= |buf|
  {
    if i == |buf| then '\0' else buf[i]
  }

  /** NUL or the byte that equals EOF: the end of the input. */
  predicate EndMark(c: char) {
    c == '\0' || c as int == 0xFF
  }

  /** `std::string::substr(i, n)`, which stops at the end of the string. */
  function Substr(buf: string, i: nat, n: nat): (r: string)
    requires i <= |buf|
    ensures |r| <= n && r <= buf[i..]
    ensures |r| == n ==> i + n <= |buf| && r == buf[i..i + n]
  {
    if i + n <= |buf| then buf[i..i + n] else buf[i..]
  }

  const Blanks: set<char> := {' ', '\t', '\n', '\r'}

  /** SkipWhiteSpaces: the first position at or after `i` that is not a
      blank or a line break. */
  function SkipWhiteSpaces(buf: string, i: nat): (r: nat)
    requires i <= |buf|
    ensures i <= r <= |buf| && At(buf, r) !in Blanks
    ensures forall k :: i <= k < r ==> buf[k] in Blanks
    decreases |buf| - i
  {
    if i < |buf| && buf[i] in Blanks then SkipWhiteSpaces(buf, i + 1) else i
  }

  /** ScanComment from the character at `i`: the cursor stops on the first
      line break or end after `i`, or on the second of two carriage
      returns. */
  function CommentEnd(buf: string, i: nat): (r: nat)
    requires i < |buf|
    ensures i < r <= |buf|
    ensures At(buf, r) == '\n' || At(buf, r) == '\r' || At(buf, r) == '\0'
    ensures forall k :: i < k < r ==>
      (buf[k] != '\n' && buf[k] != '\r' && buf[k] != '\0') || (k == r - 1 && buf[k] == '\r' && At(buf, r) == '\r')
    decreases |buf| - i
  {
    var c := At(buf, i + 1);
    if c == '\r' then (if At(buf, i + 2) == '\r' then i + 2 else i + 1)
    else if c == '\n' || c == '\0' then i + 1
    else CommentEnd(buf, i + 1)
  }

  /// Values of scalar tokens

  const NullWords: set<string> := {"null", "Null", "NULL"}
  const TrueWords: set<string> := {"true", "True", "TRUE"}
  const FalseWords: set<string> := {"false", "False", "FALSE"}
  const InfWords: set<string> := {".inf", ".Inf", ".INF"}
  const NanWords: set<string> := {".nan", ".NaN", ".NAN"}

  /** GetNull: only the spellings of null in section 10.3.2 of the YAML
      1.2.2 specification convert. */
  function GetNull(value: string): (r: Result<(), LexError>)
    ensures r.Ok? <==> value in NullWords || value == "~"
    ensures r.Err? ==> r.error == (if value == [] then EmptyValue else InvalidNull)
  {
    if value == [] then Err(EmptyValue)
    else if value == "null" || value == "Null" || value == "NULL" || value == "~" then Ok(())
    else Err(InvalidNull)
  }

  /** GetBoolean: the three spellings of each truth value. */
  function GetBoolean(value: string): (r: Result<bool, LexError>)
    ensures r.Ok? <==> value in TrueWords || value in FalseWords
    ensures r.Ok? ==> (r.value <==> value in TrueWords)
    ensures r.Err? ==> r.error == (if value == [] then EmptyValue else InvalidBoolean)
  {
    if value == [] then Err(EmptyValue)
    else if value == "true" || value == "True" || value == "TRUE" then Ok(true)
    else if value == "false" || value == "False" || value == "FALSE" then Ok(false)
    else Err(InvalidBoolean)
  }

  predicate IsDigit(c: char) {
    '0' <= c <= '9'
  }

  predicate IsOctDigit(c: char) {
    '0' <= c <= '7'
  }

  predicate IsXDigit(c: char) {
    IsDigit(c) || 'a' <= c <= 'f' || 'A' <= c <= 'F'
  }

  /** ConvertHexCharToByte. */
  function ConvertHexCharToByte(c: char): (r: Result<nat, LexError>)
    ensures r.Ok? <==> IsXDigit(c)
    ensures r.Ok? ==> r.value < 16
    ensures r.Err? ==> r.error == NonHexChar
  {
    if '0' <= c <= '9' then Ok(c as int - '0' as int)
    else if 'A' <= c <= 'F' then Ok(c as int - 'A' as int + 10)
    else if 'a' <= c <= 'f' then Ok(c as int - 'a' as int + 10)
    else Err(NonHexChar)
  }

  /** The hexadecimal digit for `v`, in lower or upper case. */
  function HexDigitChar(v: nat, upper: bool): char
    requires v < 16
  {
    if v < 10 then ('0' as int + v) as char
    else if upper then ('A' as int + v - 10) as char
    else ('a' as int + v - 10) as char
  }

  /** ConvertHexCharToByte and HexDigitChar are inverse: every digit of
      either case converts back to its value, and every character that
      converts is the digit for its value. */
  lemma HexDigitRoundTrip(c: char, v: nat, upper: bool)
    requires v < 16
    ensures ConvertHexCharToByte(HexDigitChar(v, upper)) == Ok(v)
    ensures ConvertHexCharToByte(c) == Ok(v) ==> c == HexDigitChar(v, false) || c == HexDigitChar(v, true)
  {
  }

  /// Numbers

  /** A scanned number: its kind, the value buffer, and the cursor, which
      rests on the first character that is not part of the number. */
  datatype NumScan = NumScan(kind: TokenType, text: string, next: nat)

  /** The characters that make a decimal number a float. */
  predicate HasFloatMark(s: string) {
    '.' in s || 'e' in s || 'E' in s
  }

  /** A scan entered with the cursor on `q` and the value buffer `v`
      appended exactly the characters after `q` up to its cursor. */
  predicate ReadAfter(buf: string, q: nat, v: string, n: NumScan) {
    q < n.next <= |buf| && n.text == v + buf[q + 1..n.next]
  }

  /** The characters a scan entered at `q` read. */
  function ReadPart(buf: string, q: nat, n: NumScan): string
    requires q < n.next <= |buf|
  {
    buf[q + 1..n.next]
  }

  /** A scan that read from `q + 1` on, with the character there already
      in its buffer, read from `q` on. */
  lemma ReadOneMore(buf: string, q: nat, v: string, n: NumScan)
    requires q + 1 < |buf| && ReadAfter(buf, q + 1, v + [buf[q + 1]], n)
    ensures ReadAfter(buf, q, v, n)
    ensures ReadPart(buf, q, n) == [buf[q + 1]] + ReadPart(buf, q + 1, n)
  {
    assert buf[q + 1..n.next] == [buf[q + 1]] + buf[q + 2..n.next];
  }

  /** ScanDecimalNumber, entered with the cursor on the last character
      consumed (`q`) and the value buffer `v`. A second decimal point in
      the buffer is rejected. */
  function ScanDecimalNumber(buf: string, q: nat, v: string): (r: Result<NumScan, LexError>)
    requires q < |buf|
    ensures r.Ok? ==> ReadAfter(buf, q, v, r.value)
    ensures r.Ok? ==> r.value.kind == UnsignedIntValue || r.value.kind == FloatNumberValue
    ensures r.Ok? ==> (r.value.kind == FloatNumberValue <==> HasFloatMark(ReadPart(buf, q, r.value)))
    ensures At(buf, q + 1) == '.' && '.' in v ==> r == Err(MultipleDecimalPoints)
    decreases |buf| - q
  {
    var n := At(buf, q + 1);
    if IsDigit(n) then
      var d := ScanDecimalNumber(buf, q + 1, v + [n]);
      if d.Ok? then ReadOneMore(buf, q, v, d.value); d else d
    else if n == '.' then
      if '.' in v then Err(MultipleDecimalPoints)
      else
        var d := AfterDecimalPoint(buf, q + 1, v + [n]);
        if d.Ok? then ReadOneMore(buf, q, v, d.value); d else d
    else if n == 'e' || n == 'E' then
      var d := AfterExponent(buf, q + 1, v + [n]);
      if d.Ok? then ReadOneMore(buf, q, v, d.value); d else d
    else
      assert ReadPart(buf, q, NumScan(UnsignedIntValue, v, q + 1)) == [];
      Ok(NumScan(UnsignedIntValue, v, q + 1))
  }

  /** ScanDecimalNumberAfterDecimalPoint: a digit must follow the point,
      and the number is a float whatever comes after. */
  function AfterDecimalPoint(buf: string, q: nat, v: string): (r: Result<NumScan, LexError>)
    requires q < |buf|
    ensures r.Ok? ==> ReadAfter(buf, q, v, r.value)
    ensures r.Ok? ==> r.value.kind == FloatNumberValue
    ensures !IsDigit(At(buf, q + 1)) ==> r == Err(NoDigitAfterDecimalPoint)
    decreases |buf| - q
  {
    var n := At(buf, q + 1);
    if IsDigit(n) then
      var d :- ScanDecimalNumber(buf, q + 1, v + [n]);
      ReadOneMore(buf, q, v, d);
      Ok(d.(kind := FloatNumberValue))
    else Err(NoDigitAfterDecimalPoint)
  }

  /** ScanDecimalNumberAfterExponent: an optional sign and digits; the
      number is a float even when nothing follows the `e`. */
  function AfterExponent(buf: string, q: nat, v: string): (r: Result<NumScan, LexError>)
    requires q < |buf|
    ensures r.Ok? ==> ReadAfter(buf, q, v, r.value)
    ensures r.Ok? ==> r.value.kind == FloatNumberValue
    decreases |buf| - q
  {
    var n := At(buf, q + 1);
    if n == '+' || n == '-' then
      var d :- AfterSign(buf, q + 1, v + [n]);
      ReadOneMore(buf, q, v, d);
      Ok(d.(kind := FloatNumberValue))
    else if IsDigit(n) then
      var d :- ScanDecimalNumber(buf, q + 1, v + [n]);
      ReadOneMore(buf, q, v, d);
      Ok(d.(kind := FloatNumberValue))
    else Ok(NumScan(FloatNumberValue, v, q + 1))
  }

  /** ScanDecimalNumberAfterSign: a digit must follow the exponent's sign. */
  function AfterSign(buf: string, q: nat, v: string): (r: Result<NumScan, LexError>)
    requires q < |buf|
    ensures r.Ok? ==> ReadAfter(buf, q, v, r.value)
    ensures !IsDigit(At(buf, q + 1)) ==> r == Err(NoDigitAfterExponentSign)
    decreases |buf| - q
  {
    var n := At(buf, q + 1);
    if IsDigit(n) then
      var d := ScanDecimalNumber(buf, q + 1, v + [n]);
      if d.Ok? then ReadOneMore(buf, q, v, d.value); d else d
    else Err(NoDigitAfterExponentSign)
  }

  /** ScanOctalNumber: the longest run of octal digits after `q`. */
  function ScanOctalNumber(buf: string, q: nat, v: string): (r: NumScan)
    requires q < |buf|
    ensures ReadAfter(buf, q, v, r)
    ensures r.kind == UnsignedIntValue && !IsOctDigit(At(buf, r.next))
    ensures forall k :: q < k < r.next ==> IsOctDigit(buf[k])
    decreases |buf| - q
  {
    var n := At(buf, q + 1);
    if IsOctDigit(n) then
      var d := ScanOctalNumber(buf, q + 1, v + [n]);
      ReadOneMore(buf, q, v, d);
      d
    else NumScan(UnsignedIntValue, v, q + 1)
  }

  /** ScanHexadecimalNumber: the longest run of hexadecimal digits. */
  function ScanHexadecimalNumber(buf: string, q: nat, v: string): (r: NumScan)
    requires q < |buf|
    ensures ReadAfter(buf, q, v, r)
    ensures r.kind == UnsignedIntValue && !IsXDigit(At(buf, r.next))
    ensures forall k :: q < k < r.next ==> IsXDigit(buf[k])
    decreases |buf| - q
  {
    var n := At(buf, q + 1);
    if IsXDigit(n) then
      var d := ScanHexadecimalNumber(buf, q + 1, v + [n]);
      ReadOneMore(buf, q, v, d);
      d
    else NumScan(UnsignedIntValue, v, q + 1)
  }

  /** The scan read exactly the characters from `p` up to its cursor
      into its value buffer. */
  predicate ReadFrom(buf: string, p: nat, n: NumScan) {
    p < n.next <= |buf| && n.text == buf[p..n.next]
  }

  /** The scan of an octal literal `0o...` at `p`: the value buffer holds
      the `0` and the digits read, but not the `o`. */
  predicate ReadOctalFrom(buf: string, p: nat, n: NumScan) {
    p + 2 <= n.next <= |buf| && n.text == "0" + buf[p + 2..n.next]
  }

  /** ScanNegativeNumber for the `-` at `p`: digits make a signed integer
      unless a point or exponent makes them a float; `-.inf` in its three
      spellings is negative infinity. */
  function ScanNegativeNumber(buf: string, p: nat): (r: Result<NumScan, LexError>)
    requires p < |buf| && buf[p] == '-'
    ensures r.Ok? ==> ReadFrom(buf, p, r.value)
    ensures !IsDigit(At(buf, p + 1)) && !(At(buf, p + 1) == '.' && Substr(buf, p + 1, 4) in InfWords) ==>
      r == Err(InvalidNegativeNumber)
  {
    var n := At(buf, p + 1);
    if IsDigit(n) then
      var d :- ScanDecimalNumber(buf, p + 1, ['-', n]);
      Ok(if d.kind == FloatNumberValue then d else d.(kind := SignedIntValue))
    else if n == '.' && Substr(buf, p + 1, 4) in InfWords then
      assert |Substr(buf, p + 1, 4)| == 4;
      assert buf[p..p + 5] == [buf[p]] + buf[p + 1..p + 5];
      Ok(NumScan(FloatNumberValue, "-" + Substr(buf, p + 1, 4), p + 5))
    else Err(InvalidNegativeNumber)
  }

  /** ScanNumberAfterZeroAtFirst for the `0` at `p`. The `o` of an octal
      prefix is not stored, so that the value buffer reads as a C octal
      literal; the `x` of a hexadecimal prefix is. */
  function ScanAfterZero(buf: string, p: nat): (r: Result<NumScan, LexError>)
    requires p < |buf| && buf[p] == '0'
    ensures r.Ok? ==> p < r.value.next <= |buf|
    ensures r.Ok? && OctalPrefix(buf, p) ==> ReadOctalFrom(buf, p, r.value)
    ensures r.Ok? && !OctalPrefix(buf, p) ==> ReadFrom(buf, p, r.value)
  {
    var n := At(buf, p + 1);
    if n == '.' then AfterDecimalPoint(buf, p + 1, "0.")
    else if n == 'o' then Ok(ScanOctalNumber(buf, p + 1, "0"))
    else if n == 'x' then Ok(ScanHexadecimalNumber(buf, p + 1, "0x"))
    else Ok(NumScan(UnsignedIntValue, "0", p + 1))
  }

  /** An octal prefix `0o` at `p`. */
  predicate OctalPrefix(buf: string, p: nat) {
    p + 1 < |buf| && buf[p] == '0' && buf[p + 1] == 'o'
  }

  /** ScanNumber for the character at `p`. The value buffer is the text
      read, less the `o` of an octal prefix. */
  function ScanNumber(buf: string, p: nat): (r: Result<NumScan, LexError>)
    requires p < |buf|
    ensures r.Ok? ==> p < r.value.next <= |buf|
    ensures r.Ok? && OctalPrefix(buf, p) ==> ReadOctalFrom(buf, p, r.value)
    ensures r.Ok? && !OctalPrefix(buf, p) ==> ReadFrom(buf, p, r.value)
    ensures buf[p] !in "-0123456789" ==> r == Err(InvalidNumberChar)
  {
    var c := buf[p];
    if c == '-' then ScanNegativeNumber(buf, p)
    else if c == '0' then ScanAfterZero(buf, p)
    else if '1' <= c <= '9' then ScanDecimalNumber(buf, p, [c])
    else Err(InvalidNumberChar)
  }

  /** A value buffer that GetUnsignedInt reads as hexadecimal. */
  predicate HexText(t: string) {
    |t| >= 2 && t[0] == '0' && t[1] == 'x'
  }

  /** What the kind of a scanned number means: a float exactly when its
      value buffer holds a decimal point or an exponent mark (the digits of
      a hexadecimal number aside), signed exactly when it is a negative
      integer, and unsigned otherwise. */
  predicate KindAgrees(n: NumScan) {
    && |n.text| > 0
    && (n.kind == FloatNumberValue || n.kind == SignedIntValue || n.kind == UnsignedIntValue)
    && (n.kind == FloatNumberValue <==> !HexText(n.text) && HasFloatMark(n.text))
    && (n.kind == SignedIntValue <==> n.text[0] == '-' && !HasFloatMark(n.text))
  }

  /** Every number ScanNumber accepts has the kind its text calls for. */
  lemma NumberKindMeaning(buf: string, p: nat)
    requires p < |buf|
    ensures ScanNumber(buf, p).Ok? ==> KindAgrees(ScanNumber(buf, p).value)
  {
    var c := buf[p];
    if c == '-' {
      NegativeKind(buf, p);
    } else if c == '0' {
      AfterZeroKind(buf, p);
    } else if '1' <= c <= '9' {
      DecimalKind(buf, p, [c]);
    }
  }

  /** A decimal scan from a buffer of digits has the kind its text calls for. */
  lemma DecimalKind(buf: string, q: nat, v: string)
    requires q < |buf| && |v| > 0 && '1' <= v[0] <= '9' && !HasFloatMark(v)
    ensures ScanDecimalNumber(buf, q, v).Ok? ==> KindAgrees(ScanDecimalNumber(buf, q, v).value)
  {
    var r := ScanDecimalNumber(buf, q, v);
    if r.Ok? {
      var t := r.value.text;
      assert t == v + buf[q + 1..r.value.next];
      assert t[0] == v[0];
      assert HasFloatMark(t) <==> HasFloatMark(buf[q + 1..r.value.next]);
    }
  }

  lemma NegativeKind(buf: string, p: nat)
    requires p < |buf| && buf[p] == '-'
    ensures ScanNegativeNumber(buf, p).Ok? ==> KindAgrees(ScanNegativeNumber(buf, p).value)
  {
    var n := At(buf, p + 1);
    var r := ScanNegativeNumber(buf, p);
    if r.Ok? {
      if IsDigit(n) {
        var d := ScanDecimalNumber(buf, p + 1, ['-', n]).value;
        assert d.text == ['-', n] + buf[p + 2..d.next];
        assert HasFloatMark(d.text) <==> HasFloatMark(buf[p + 2..d.next]);
      } else {
        assert r.value.text == "-" + Substr(buf, p + 1, 4);
        assert Substr(buf, p + 1, 4)[0] == '.';
        assert '.' in r.value.text;
      }
    }
  }

  lemma AfterZeroKind(buf: string, p: nat)
    requires p < |buf| && buf[p] == '0'
    ensures ScanAfterZero(buf, p).Ok? ==> KindAgrees(ScanAfterZero(buf, p).value)
  {
    var n := At(buf, p + 1);
    var r := ScanAfterZero(buf, p);
    if r.Ok? {
      var t := r.value.text;
      if n == '.' {
        assert t == "0." + buf[p + 2..r.value.next];
        assert t[0] == '0' && t[1] == '.' && '.' in t;
      } else if n == 'o' {
        var o := ScanOctalNumber(buf, p + 1, "0");
        assert t == "0" + buf[p + 2..o.next];
        assert forall k :: 0 <= k < |t| ==> IsOctDigit(t[k]);
      } else if n == 'x' {
        assert t[0] == '0' && t[1] == 'x';
      } else {
        assert t == "0";
      }
    }
  }

  /** The value of a digit character up to base 16. */
  function DigitValue(c: char): nat {
    if '0' <= c <= '9' then c as int - '0' as int
    else if 'a' <= c <= 'f' then c as int - 'a' as int + 10
    else if 'A' <= c <= 'F' then c as int - 'A' as int + 10
    else 0
  }

  /** The value of a digit string in `base`, most significant digit first. */
  function DigitsValue(base: nat, d: string): nat
    decreases |d|
  {
    if |d| == 0 then 0 else DigitsValue(base, d[..|d| - 1]) * base + DigitValue(d[|d| - 1])
  }

  /** How `strtoull` with base 0, which GetUnsignedInt calls, reads a value
      buffer of digits: `0x` starts hexadecimal, a leading `0` octal, and
      anything else is decimal. The 64-bit range check is not modelled. */
  function RadixValue(t: string): nat {
    if HexText(t) then DigitsValue(16, t[2..])
    else if |t| >= 1 && t[0] == '0' then DigitsValue(8, t[1..])
    else DigitsValue(10, t)
  }

  /** A YAML octal literal `0o` followed by octal digits is stored as `0`
      and the digits, which `strtoull` reads as the same octal number: the
      dropped `o` loses nothing. */
  lemma {:induction false} OctalLiteralValue(buf: string, p: nat, d: string)
    requires p + 2 + |d| <= |buf| && buf[p..p + 2] == "0o" && buf[p + 2..p + 2 + |d|] == d
    requires forall k :: 0 <= k < |d| ==> IsOctDigit(d[k])
    requires !IsOctDigit(At(buf, p + 2 + |d|))
    ensures ScanNumber(buf, p) == Ok(NumScan(UnsignedIntValue, "0" + d, p + 2 + |d|))
    ensures RadixValue("0" + d) == DigitsValue(8, d)
  {
    assert buf[p] == buf[p..p + 2][0] && buf[p + 1] == buf[p..p + 2][1];
    forall k | p + 1 < k < p + 2 + |d|
      ensures IsOctDigit(buf[k])
    {
      assert buf[k] == buf[p + 2..p + 2 + |d|][k - p - 2] == d[k - p - 2];
    }
    OctalRunLength(buf, p + 1, p + 2 + |d|, "0");
    assert ("0" + d)[1..] == d;
  }

  /** The octal run after `q` ends exactly at the first non-octal digit. */
  lemma {:induction false} OctalRunLength(buf: string, q: nat, e: nat, v: string)
    requires q < e <= |buf| && !IsOctDigit(At(buf, e))
    requires forall k :: q < k < e ==> IsOctDigit(buf[k])
    ensures ScanOctalNumber(buf, q, v).next == e
    decreases e - q
  {
    if q + 1 < e {
      OctalRunLength(buf, q + 1, e, v + [buf[q + 1]]);
    }
  }

  /** ScanDecimalNumber runs over a stretch of digits without deciding
      anything: it continues after the last one with those digits stored. */
  lemma {:induction false} DigitRun(buf: string, q: nat, m: nat, v: string)
    requires q <= m < |buf|
    requires forall k :: q < k <= m ==> IsDigit(buf[k])
    ensures ScanDecimalNumber(buf, q, v) == ScanDecimalNumber(buf, m, v + buf[q + 1..m + 1])
    decreases m - q
  {
    if q == m {
      assert v + buf[q + 1..m + 1] == v;
    } else {
      DigitRun(buf, q + 1, m, v + [buf[q + 1]]);
      assert v + [buf[q + 1]] + buf[q + 2..m + 1] == v + buf[q + 1..m + 1];
    }
  }

  /** The hexadecimal run after `q` ends at the first non-hexadecimal
      character. */
  lemma {:induction false} HexRunLength(buf: string, q: nat, e: nat, v: string)
    requires q < e <= |buf| && !IsXDigit(At(buf, e))
    requires forall k :: q < k < e ==> IsXDigit(buf[k])
    ensures ScanHexadecimalNumber(buf, q, v).next == e
    decreases e - q
  {
    if q + 1 < e {
      HexRunLength(buf, q + 1, e, v + [buf[q + 1]]);
    }
  }

  /** The unsigned integer of the lexer's unit tests, read in full. */
  lemma TestedUnsignedInteger()
    ensures ScanNumber("5678", 0) == Ok(NumScan(UnsignedIntValue, "5678", 4))
  {
    var buf := "5678";
    DigitRun(buf, 0, 3, "5");
    assert "5" + buf[1..4] == buf && ['5'] == "5";
    assert At(buf, 4) == '\0' && !IsDigit('\0');
    assert ScanDecimalNumber(buf, 3, buf) == Ok(NumScan(UnsignedIntValue, buf, 4));
    DecimalStart(buf, 0);
  }

  /** The signed integer of the lexer's unit tests, read in full. */
  lemma TestedSignedInteger()
    ensures ScanNumber("-1234", 0) == Ok(NumScan(SignedIntValue, "-1234", 5))
  {
    var buf := "-1234";
    DigitRun(buf, 1, 4, "-1");
    assert "-1" + buf[2..5] == buf;
    assert At(buf, 5) == '\0' && !IsDigit('\0');
    assert ScanDecimalNumber(buf, 4, buf) == Ok(NumScan(UnsignedIntValue, buf, 5));
  }

  /** `0o437` is stored as `0437`, which reads as 287. */
  lemma TestedOctal()
    ensures ScanNumber("0o437", 0) == Ok(NumScan(UnsignedIntValue, "0437", 5))
    ensures RadixValue("0437") == 287
  {
    OctalScan();
    assert "0437"[1..] == "437";
    OctalDigitsValue();
  }

  lemma OctalScan()
    ensures ScanNumber("0o437", 0) == Ok(NumScan(UnsignedIntValue, "0437", 5))
  {
    var buf := "0o437";
    assert buf[0..2] == "0o" && buf[2..5] == "437" && At(buf, 5) == '\0';
    OctalLiteralValue(buf, 0, "437");
    assert "0" + "437" == "0437";
  }

  lemma OctalDigitsValue()
    ensures DigitsValue(8, "437") == 287
  {
    assert "437"[..2] == "43" && "43"[..1] == "4" && "4"[..0] == "";
  }

  /** `0xA04F` is stored as written and reads as 41039. */
  lemma TestedHexadecimal()
    ensures ScanNumber("0xA04F", 0) == Ok(NumScan(UnsignedIntValue, "0xA04F", 6))
    ensures RadixValue("0xA04F") == 41039
  {
    HexScan();
    HexDigitsValue();
    assert "0xA04F"[2..] == "A04F";
  }

  lemma HexScan()
    ensures ScanNumber("0xA04F", 0) == Ok(NumScan(UnsignedIntValue, "0xA04F", 6))
  {
    var buf := "0xA04F";
    HexRunLength(buf, 1, 6, "0x");
    assert "0x" + buf[2..6] == buf;
    assert ScanNumber(buf, 0) == ScanAfterZero(buf, 0);
    assert ScanAfterZero(buf, 0) == Ok(ScanHexadecimalNumber(buf, 1, "0x"));
  }

  lemma HexDigitsValue()
    ensures DigitsValue(16, "A04F") == 41039
  {
    assert "A04F"[..3] == "A04" && "A04"[..2] == "A0" && "A0"[..1] == "A" && "A"[..0] == "";
  }

  lemma TestedSignedFloat()
    ensures ScanNumber("-1.234", 0) == Ok(NumScan(FloatNumberValue, "-1.234", 6))
  {
    var buf := "-1.234";
    assert At(buf, 1) == '1' && At(buf, 2) == '.' && At(buf, 3) == '2' && At(buf, 6) == '\0';
    assert ['-', '1'] + ['.'] == "-1." && "-1." + ['2'] == "-1.2";
    DigitRun(buf, 3, 5, "-1.2");
    assert "-1.2" + buf[4..6] == buf;
    assert ScanDecimalNumber(buf, 5, buf) == Ok(NumScan(UnsignedIntValue, buf, 6));
    assert AfterDecimalPoint(buf, 2, "-1.") == Ok(NumScan(FloatNumberValue, buf, 6));
    assert ScanDecimalNumber(buf, 1, ['-', '1']) == AfterDecimalPoint(buf, 2, "-1.");
  }

  lemma TestedUnsignedFloat()
    ensures ScanNumber("567.8", 0) == Ok(NumScan(FloatNumberValue, "567.8", 5))
  {
    UnsignedFloatFraction();
    UnsignedFloatInteger();
    assert "567.8"[0] == '5' && ["567.8"[0]] == "5";
  }

  /** The integer part of "567.8", up to its point. */
  lemma UnsignedFloatInteger()
    ensures ScanDecimalNumber("567.8", 0, "5") == AfterDecimalPoint("567.8", 3, "567.")
  {
    var buf := "567.8";
    DigitRun(buf, 0, 2, "5");
    assert "5" + buf[1..3] == "567";
    assert At(buf, 3) == '.' && '.' !in "567" && "567" + ['.'] == "567.";
  }

  /** The fraction of "567.8", read after its point. */
  lemma UnsignedFloatFraction()
    ensures AfterDecimalPoint("567.8", 3, "567.") == Ok(NumScan(FloatNumberValue, "567.8", 5))
  {
    var buf := "567.8";
    assert At(buf, 4) == '8' && At(buf, 5) == '\0' && "567." + ['8'] == buf;
    assert ScanDecimalNumber(buf, 4, buf) == Ok(NumScan(UnsignedIntValue, buf, 5));
  }

  lemma TestedExponent()
    ensures ScanNumber("9.8e-3", 0) == Ok(NumScan(FloatNumberValue, "9.8e-3", 6))
  {
    ExponentMantissa();
    DecimalStart("9.8e-3", 0);
  }

  /** "9.8e-3" read after its first digit. */
  lemma ExponentMantissa()
    ensures ScanDecimalNumber("9.8e-3", 0, ['9']) == Ok(NumScan(FloatNumberValue, "9.8e-3", 6))
  {
    var buf := "9.8e-3";
    ExponentFraction();
    assert At(buf, 1) == '.' && ['9'] + ['.'] == "9." && '.' !in ['9'];
  }

  /** A number starting with a non-zero digit is read as a decimal. */
  lemma DecimalStart(buf: string, p: nat)
    requires p < |buf| && '1' <= buf[p] <= '9'
    ensures ScanNumber(buf, p) == ScanDecimalNumber(buf, p, [buf[p]])
  {
  }

  /** "9.8e-3" read after its decimal point. */
  lemma ExponentFraction()
    ensures AfterDecimalPoint("9.8e-3", 1, "9.") == Ok(NumScan(FloatNumberValue, "9.8e-3", 6))
  {
    var buf := "9.8e-3";
    ExponentTail();
    assert At(buf, 2) == '8' && At(buf, 3) == 'e';
    assert "9." + ['8'] == "9.8" && "9.8" + ['e'] == "9.8e";
    assert ScanDecimalNumber(buf, 2, "9.8") == AfterExponent(buf, 3, "9.8e");
  }

  /** The exponent of "9.8e-3", read after its `e`. */
  lemma ExponentTail()
    ensures AfterExponent("9.8e-3", 3, "9.8e") == Ok(NumScan(FloatNumberValue, "9.8e-3", 6))
  {
    var buf := "9.8e-3";
    assert At(buf, 4) == '-' && At(buf, 5) == '3' && At(buf, 6) == '\0';
    assert "9.8e" + ['-'] == "9.8e-" && "9.8e-" + ['3'] == buf;
    assert ScanDecimalNumber(buf, 5, buf) == Ok(NumScan(UnsignedIntValue, buf, 6));
    assert AfterSign(buf, 4, "9.8e-") == Ok(NumScan(UnsignedIntValue, buf, 6));
  }

  lemma TestedNegativeInfinity()
    ensures ScanNumber("-.inf", 0) == Ok(NumScan(FloatNumberValue, "-.inf", 5))
  {
    var buf := "-.inf";
    assert At(buf, 1) == '.';
    assert Substr(buf, 1, 4) == ".inf" && "-" + ".inf" == buf;
  }

  /** Malformed numbers: a second decimal point, a point or exponent sign
      without a digit after it, a lone minus, and a leading plus. */
  lemma RejectedNumbers()
    ensures ScanNumber("1.2.3", 0) == Err(MultipleDecimalPoints)
    ensures ScanNumber("1.", 0) == Err(NoDigitAfterDecimalPoint)
    ensures ScanNumber("1e+x", 0) == Err(NoDigitAfterExponentSign)
    ensures ScanNumber("-x", 0) == Err(InvalidNegativeNumber)
    ensures ScanNumber("+1", 0) == Err(InvalidNumberChar)
  {
    RejectedPoints();
    RejectedExponentSign();
    RejectedSigns();
  }

  lemma RejectedPoints()
    ensures ScanNumber("1.2.3", 0) == Err(MultipleDecimalPoints)
    ensures ScanNumber("1.", 0) == Err(NoDigitAfterDecimalPoint)
  {
    DecimalStart("1.2.3", 0);
    DecimalStart("1.", 0);
    assert At("1.", 2) == '\0';
  }

  lemma RejectedExponentSign()
    ensures ScanNumber("1e+x", 0) == Err(NoDigitAfterExponentSign)
  {
    DecimalStart("1e+x", 0);
  }

  lemma RejectedSigns()
    ensures ScanNumber("-x", 0) == Err(InvalidNegativeNumber)
    ensures ScanNumber("+1", 0) == Err(InvalidNumberChar)
  {
  }

  /// Strings

  /** A scanned string: the value buffer and the cursor, which rests on the
      character that ended the string (the closing quote of a quoted one). */
  datatype StrScan = StrScan(text: string, next: nat)

  /** The escape sequences ScanString decodes (section 5.7 of the YAML
      1.2.2 specification, without the multi-byte ones): the character
      each escape letter stands for. */
  function EscapeChar(e: char): (r: Option<char>)
    ensures r.Some? ==> 0x20 <= e as int <= 0x7E
  {
    match e
    case '0' => Some('\0')
    case 'a' => Some(7 as char)
    case 'b' => Some(8 as char)
    case 't' => Some('\t')
    case 'n' => Some('\n')
    case 'v' => Some(11 as char)
    case 'f' => Some(12 as char)
    case 'r' => Some('\r')
    case 'e' => Some(27 as char)
    case ' ' => Some(' ')
    case '"' => Some('"')
    case '/' => Some('/')
    case '\\' => Some('\\')
    case _ => None
  }

  /** The escape letter for a character that has one. */
  function EscapeOf(ch: char): Option<char> {
    match ch
    case '\0' => Some('0')
    case '\t' => Some('t')
    case '\n' => Some('n')
    case '\r' => Some('r')
    case ' ' => Some(' ')
    case '"' => Some('"')
    case '/' => Some('/')
    case '\\' => Some('\\')
    case _ =>
      if ch as int == 7 then Some('a')
      else if ch as int == 8 then Some('b')
      else if ch as int == 11 then Some('v')
      else if ch as int == 12 then Some('f')
      else if ch as int == 27 then Some('e')
      else None
  }

  /** The escape table is one-to-one: EscapeOf undoes EscapeChar and
      nothing else. */
  lemma EscapeTableInverse(e: char, ch: char)
    ensures EscapeChar(e) == Some(ch) <==> EscapeOf(ch) == Some(e)
  {
  }

  /** The `\x` branch for the `x` at `x`: two hexadecimal digits are
      converted, and the case then falls through to the default that
      rejects the escape, so it never succeeds. */
  function HexEscape(buf: string, x: nat): (r: Result<StrScan, LexError>)
    requires x < |buf|
    ensures r.Err?
    ensures r.error == (if IsXDigit(At(buf, x + 1)) && IsXDigit(At(buf, x + 2)) then UnsupportedEscape else NonHexChar)
  {
    var _ :- ConvertHexCharToByte(At(buf, x + 1));
    var _ :- ConvertHexCharToByte(At(buf, x + 2));
    Err(UnsupportedEscape)
  }

  /** The trailing-space trim before a `]` or `}` that ends an unquoted
      string. `back()` on an empty buffer is undefined, reported here as an
      error. */
  function TrimTrailingSpaces(v: string): (r: Result<string, LexError>)
    ensures r.Err? <==> forall k :: 0 <= k < |v| ==> v[k] == ' '
    ensures r.Ok? ==> 0 < |r.value| && r.value <= v && r.value[|r.value| - 1] != ' '
    ensures r.Ok? ==> forall k :: |r.value| <= k < |v| ==> v[k] == ' '
    decreases |v|
  {
    if |v| == 0 then Err(TrimEmptyValue)
    else if v[|v| - 1] == ' ' then TrimTrailingSpaces(v[..|v| - 1])
    else Ok(v)
  }

  /** The loop of ScanString from the character at `q`, with value buffer
      `v`; `dq` and `sq` say which quote opened the string. */
  function ScanStringFrom(buf: string, q: nat, dq: bool, sq: bool, v: string): (r: Result<StrScan, LexError>)
    requires q <= |buf| && !(dq && sq)
    ensures r.Ok? ==> q <= r.value.next <= |buf|
    ensures r.Ok? && dq ==> At(buf, r.value.next) == '"'
    ensures r.Ok? && sq ==> At(buf, r.value.next) == '\''
    decreases |buf| - q
  {
    var c := At(buf, q);
    var quoted := dq || sq;
    if c == '"' then
      if dq then Ok(StrScan(v, q))
      else if !sq then Err(InvalidDoubleQuote)
      else ScanStringFrom(buf, q + 1, dq, sq, v + [c])
    else if c == '\'' then
      if dq || !sq then Err(InvalidSingleQuote)
      else if At(buf, q + 1) == '\'' then ScanStringFrom(buf, q + 2, dq, sq, v + [c])
      else Ok(StrScan(v, q))
    else if c == ':' then
      if quoted || At(buf, q + 1) != ' ' then ScanStringFrom(buf, q + 1, dq, sq, v + [c])
      else Ok(StrScan(v, q))
    else if c == ',' then
      if quoted then ScanStringFrom(buf, q + 1, dq, sq, v + [c]) else Ok(StrScan(v, q))
    else if c == ']' || c == '}' then
      if quoted then ScanStringFrom(buf, q + 1, dq, sq, v + [c])
      else
        var t :- TrimTrailingSpaces(v);
        Ok(StrScan(t, q))
    else if c == '\r' || c == '\n' then
      if !quoted then Ok(StrScan(v, q))
      else
        // The `continue` after SkipWhiteSpaces reads the next character,
        // so the first one after the blanks is skipped unseen.
        var b := SkipWhiteSpaces(buf, q);
        if b == |buf| then Err(ReadPastEnd) else ScanStringFrom(buf, b + 1, dq, sq, v)
    else if EndMark(c) then
      if dq then Err(UnclosedDoubleQuote)
      else if sq then Err(UnclosedSingleQuote)
      else Ok(StrScan(v, q))
    else if c == '\\' then
      if !dq then Err(EscapeOutsideDoubleQuote)
      else
        var e := At(buf, q + 1);
        if e == 'x' then HexEscape(buf, q + 1)
        else match EscapeChar(e)
          case None => Err(UnsupportedEscape)
          // After the switch the escape letter, being printable, is
          // appended as well.
          case Some(ch) => ScanStringFrom(buf, q + 2, dq, sq, v + [ch, e])
    else if 0x20 <= c as int <= 0x7E || c == '\t' then ScanStringFrom(buf, q + 1, dq, sq, v + [c])
    else Err(UnsupportedChar(c))
  }

  /** ScanString for the character at `p`: a quote opens a quoted string
      whose first character follows it. */
  function ScanString(buf: string, p: nat): (r: Result<StrScan, LexError>)
    requires p < |buf|
    ensures r.Ok? ==> p <= r.value.next <= |buf|
    ensures r.Ok? && buf[p] == '"' ==> At(buf, r.value.next) == '"' && p < r.value.next
    ensures r.Ok? && buf[p] == '\'' ==> At(buf, r.value.next) == '\'' && p < r.value.next
  {
    var dq := buf[p] == '"';
    var sq := buf[p] == '\'';
    ScanStringFrom(buf, if dq || sq then p + 1 else p, dq, sq, [])
  }

  /** Where an unquoted string ends: a comma, a line break, a closing flow
      bracket, the end of the input, or a colon followed by a space. */
  predicate UnquotedStop(buf: string, k: nat)
    requires k <= |buf|
  {
    var c := At(buf, k);
    || EndMark(c)
    || c == ',' || c == '\r' || c == '\n' || c == ']' || c == '}'
    || (c == ':' && At(buf, k + 1) == ' ')
  }

  /** The characters an unquoted string may hold: printable ASCII other
      than quotes and backslash, and tab. */
  predicate UnquotedChar(c: char) {
    (0x20 <= c as int <= 0x7E && c != '"' && c != '\'' && c != '\\') || c == '\t'
  }

  /** An unquoted string runs to its first stop and holds exactly the
      characters before it; before a closing bracket or brace its
      trailing spaces are trimmed. */
  lemma {:induction false} UnquotedScan(buf: string, q: nat, e: nat, v: string)
    requires q <= e <= |buf| && UnquotedStop(buf, e)
    requires forall k :: q <= k < e ==> !UnquotedStop(buf, k) && UnquotedChar(buf[k])
    ensures At(buf, e) != ']' && At(buf, e) != '}' ==>
      ScanStringFrom(buf, q, false, false, v) == Ok(StrScan(v + buf[q..e], e))
    ensures At(buf, e) == ']' || At(buf, e) == '}' ==>
      var t := TrimTrailingSpaces(v + buf[q..e]);
      ScanStringFrom(buf, q, false, false, v) == if t.Ok? then Ok(StrScan(t.value, e)) else Err(t.error)
    decreases e - q
  {
    if q < e {
      assert !UnquotedStop(buf, q) && UnquotedChar(buf[q]);
      UnquotedScan(buf, q + 1, e, v + [buf[q]]);
      assert v + [buf[q]] + buf[q + 1..e] == v + buf[q..e];
    } else {
      assert v + buf[q..e] == v;
    }
  }

  /** Conversely, a character an unquoted string may not hold, met before
      the string's first stop, is an error. */
  lemma {:induction false} UnquotedRejects(buf: string, q: nat, b: nat, v: string)
    requires q <= b < |buf| && !UnquotedStop(buf, b) && !UnquotedChar(buf[b])
    requires forall k :: q <= k < b ==> !UnquotedStop(buf, k) && UnquotedChar(buf[k])
    ensures ScanStringFrom(buf, q, false, false, v).Err?
    decreases b - q
  {
    if q < b {
      assert !UnquotedStop(buf, q) && UnquotedChar(buf[q]);
      UnquotedRejects(buf, q + 1, b, v + [buf[q]]);
    }
  }

  /** A single-quoted body: every `'` doubled. */
  function QuoteSingle(s: string): string
    decreases |s|
  {
    if |s| == 0 then [] else (if s[0] == '\'' then "''" else [s[0]]) + QuoteSingle(s[1..])
  }

  /** What a single-quoted string may hold: printable ASCII except
      backslash, which is rejected outside double quotes, and tab. */
  predicate SingleQuotable(c: char) {
    (0x20 <= c as int <= 0x7E && c != '\\') || c == '\t'
  }

  /** One character of a single-quoted body, a doubled quote counting as one. */
  lemma SingleQuotedStep(buf: string, q: nat, v: string)
    requires q < |buf| && SingleQuotable(buf[q])
    requires buf[q] == '\'' ==> q + 1 < |buf| && buf[q + 1] == '\''
    ensures ScanStringFrom(buf, q, false, true, v) ==
      ScanStringFrom(buf, q + (if buf[q] == '\'' then 2 else 1), false, true, v + [buf[q]])
  {
  }

  lemma SingleQuotableTail(s: string)
    requires |s| > 0 && forall k :: 0 <= k < |s| ==> SingleQuotable(s[k])
    ensures forall k :: 0 <= k < |s[1..]| ==> SingleQuotable(s[1..][k])
  {
    forall k | 0 <= k < |s[1..]| ensures SingleQuotable(s[1..][k]) {
      assert s[1..][k] == s[k + 1];
    }
  }

  /** The loop reads a single-quoted body back to the text it quotes and
      stops on the closing quote. */
  lemma {:induction false} SingleQuotedBody(pre: string, s: string, rest: string, v: string)
    requires forall k :: 0 <= k < |s| ==> SingleQuotable(s[k])
    requires |rest| == 0 || rest[0] != '\''
    ensures ScanStringFrom(pre + QuoteSingle(s) + "'" + rest, |pre|, false, true, v) ==
      Ok(StrScan(v + s, |pre| + |QuoteSingle(s)|))
    decreases |s|
  {
    var buf := pre + QuoteSingle(s) + "'" + rest;
    if |s| == 0 {
      assert s == [] && v + s == v;
      SingleQuotedClose(pre, rest, v);
    } else {
      var head := QuotedHead(s);
      SingleQuotedHead(pre, s, rest);
      SingleQuotableTail(s);
      SingleQuotedBody(pre + head, s[1..], rest, v + [s[0]]);
      SingleQuotedStep(buf, |pre|, v);
      assert v + [s[0]] + s[1..] == v + s;
    }
  }

  /** The closing quote of a single-quoted body ends the scan. */
  lemma SingleQuotedClose(pre: string, rest: string, v: string)
    requires |rest| == 0 || rest[0] != '\''
    ensures ScanStringFrom(pre + QuoteSingle([]) + "'" + rest, |pre|, false, true, v) == Ok(StrScan(v, |pre|))
  {
    var buf := pre + QuoteSingle([]) + "'" + rest;
    assert buf == pre + "'" + rest;
    assert At(buf, |pre|) == '\'';
    assert At(buf, |pre| + 1) != '\'';
  }

  /** The first character of a non-empty text as quoted in a
      single-quoted body, doubled if it is a quote. */
  function QuotedHead(s: string): string
    requires |s| > 0
  {
    if s[0] == '\'' then "''" else [s[0]]
  }

  /** A single-quoted body starts with its quoted first character. */
  lemma SingleQuotedHead(pre: string, s: string, rest: string)
    requires |s| > 0 && SingleQuotable(s[0])
    ensures var buf := pre + QuoteSingle(s) + "'" + rest;
      && buf == (pre + QuotedHead(s)) + QuoteSingle(s[1..]) + "'" + rest
      && buf[|pre|] == s[0]
      && (s[0] == '\'' ==> buf[|pre| + 1] == '\'')
  {
    var h := QuotedHead(s);
    var q := QuoteSingle(s[1..]);
    assert QuoteSingle(s) == h + q;
    assert pre + QuoteSingle(s) == (pre + h) + q;
    var buf := pre + QuoteSingle(s) + "'" + rest;
    assert buf[|pre|] == (pre + QuoteSingle(s))[|pre|] == h[0];
    if s[0] == '\'' {
      assert buf[|pre| + 1] == (pre + QuoteSingle(s))[|pre| + 1] == h[1];
    }
  }

  /** A single-quoted string round-trips: quoting a text and scanning it
      back gives the text, with the cursor on the closing quote. */
  lemma SingleQuotedRoundTrip(s: string, rest: string)
    requires forall k :: 0 <= k < |s| ==> SingleQuotable(s[k])
    requires |rest| == 0 || rest[0] != '\''
    ensures ScanString("'" + QuoteSingle(s) + "'" + rest, 0) == Ok(StrScan(s, 1 + |QuoteSingle(s)|))
  {
    var buf := "'" + QuoteSingle(s) + "'" + rest;
    SingleQuotedBody("'", s, rest, []);
    assert buf[0] == '\'' && [] + s == s;
    assert ScanString(buf, 0) == ScanStringFrom(buf, 1, false, true, []);
  }

  /** What a double-quoted string holds verbatim: printable ASCII except
      the two quotes and backslash, and tab. A `'` inside double quotes is
      rejected. */
  predicate DoubleQuotable(c: char) {
    (0x20 <= c as int <= 0x7E && c != '"' && c != '\'' && c != '\\') || c == '\t'
  }

  /** The loop reads an escape-free double-quoted body back verbatim. */
  lemma {:induction false} DoubleQuotedBody(pre: string, s: string, rest: string, v: string)
    requires forall k :: 0 <= k < |s| ==> DoubleQuotable(s[k])
    ensures ScanStringFrom(pre + s + "\"" + rest, |pre|, true, false, v) == Ok(StrScan(v + s, |pre| + |s|))
    decreases |s|
  {
    var buf := pre + s + "\"" + rest;
    if |s| == 0 {
      assert At(buf, |pre|) == '"';
      assert v + s == v;
    } else {
      assert DoubleQuotable(s[0]);
      assert buf == (pre + [s[0]]) + s[1..] + "\"" + rest;
      assert forall k :: 0 <= k < |s[1..]| ==> DoubleQuotable(s[1..][k]) by {
        forall k | 0 <= k < |s[1..]| ensures DoubleQuotable(s[1..][k]) {
          assert s[1..][k] == s[k + 1];
        }
      }
      DoubleQuotedBody(pre + [s[0]], s[1..], rest, v + [s[0]]);
      assert At(buf, |pre|) == s[0];
      assert v + [s[0]] + s[1..] == v + s;
    }
  }

  /** An escape-free double-quoted string round-trips. */
  lemma DoubleQuotedRoundTrip(s: string, rest: string)
    requires forall k :: 0 <= k < |s| ==> DoubleQuotable(s[k])
    ensures ScanString("\"" + s + "\"" + rest, 0) == Ok(StrScan(s, 1 + |s|))
  {
    var buf := "\"" + s + "\"" + rest;
    DoubleQuotedBody("\"", s, rest, []);
    assert buf[0] == '"' && [] + s == s;
    assert ScanString(buf, 0) == ScanStringFrom(buf, 1, true, false, []);
  }

  /** An escape sequence appends the character it stands for and then the
      escape letter too, because the letter is printable and the switch
      falls through to the branch that appends printable characters. */
  lemma EscapeAppendsLetter(buf: string, q: nat, v: string)
    requires q + 1 < |buf| && buf[q] == '\\' && EscapeChar(buf[q + 1]).Some?
    ensures ScanStringFrom(buf, q, true, false, v) ==
      ScanStringFrom(buf, q + 2, true, false, v + [EscapeChar(buf[q + 1]).value, buf[q + 1]])
  {
  }

  /** So `"\n"` scans to a line feed followed by `n`. */
  lemma EscapedNewlineExample()
    ensures ScanString("\"\\n\"", 0) == Ok(StrScan(['\n', 'n'], 3))
  {
    var buf := "\"\\n\"";
    assert At(buf, 1) == '\\' && At(buf, 2) == 'n' && At(buf, 3) == '"';
    assert ScanStringFrom(buf, 3, true, false, ['\n', 'n']) == Ok(StrScan(['\n', 'n'], 3));
    assert [] + ['\n', 'n'] == ['\n', 'n'];
  }

  /** And a `\x` escape never succeeds. */
  lemma HexEscapeRejected(buf: string, q: nat, v: string)
    requires q + 1 < |buf| && buf[q] == '\\' && buf[q + 1] == 'x'
    ensures ScanStringFrom(buf, q, true, false, v).Err?
  {
  }

  /** Inside quotes, a line break and the blanks after it are skipped
      together with the first character after them: `"a` line break
      `  bc"` scans to `ac`. */
  lemma QuotedLineBreakExample()
    ensures ScanString("\"a\n  bc\"", 0) == Ok(StrScan("ac", 7))
  {
    var buf := "\"a\n  bc\"";
    assert At(buf, 1) == 'a' && At(buf, 2) == '\n' && At(buf, 5) == 'b' && At(buf, 6) == 'c' && At(buf, 7) == '"';
    assert SkipWhiteSpaces(buf, 2) == 5 by {
      assert buf[2] in Blanks && buf[3] in Blanks && buf[4] in Blanks && buf[5] !in Blanks;
    }
    assert [] + ['a'] == "a" && "a" + ['c'] == "ac";
    assert ScanStringFrom(buf, 6, true, false, "a") == Ok(StrScan("ac", 7));
  }

  /// Tokens

  /** The lexer's state between tokens: the cursor and the value buffer. */
  datatype LexState = LexState(pos: nat, value: string)

  /** A token type and the lexer state after it. */
  type Lexed = (TokenType, LexState)

  predicate NumberKind(k: TokenType) {
    k == SignedIntValue || k == UnsignedIntValue || k == FloatNumberValue
  }

  /** A number token: its value buffer replaces the old one. */
  function NumberToken(buf: string, p: nat): (r: Result<Lexed, LexError>)
    requires p < |buf|
    ensures r.Ok? ==> NumberKind(r.value.0) && p < r.value.1.pos <= |buf|
  {
    var n :- ScanNumber(buf, p);
    NumberKindMeaning(buf, p);
    Ok((n.kind, LexState(n.next, n.text)))
  }

  /** A string token. */
  function StringToken(buf: string, p: nat): (r: Result<Lexed, LexError>)
    requires p < |buf|
    ensures r.Ok? ==> r.value.0 == StringValue && p <= r.value.1.pos <= |buf|
  {
    var t :- ScanString(buf, p);
    Ok((StringValue, LexState(t.next, t.text)))
  }

  /** A reserved word of `n` characters at `p`, or else a string. */
  function WordToken(buf: string, p: nat, n: nat, words: set<string>, kind: TokenType): (r: Result<Lexed, LexError>)
    requires p < |buf| && 0 < n
    ensures r.Ok? ==> p <= r.value.1.pos <= |buf|
    ensures r.Ok? && r.value.0 != StringValue ==> r.value.0 == kind && r.value.1.value in words
  {
    var w := Substr(buf, p, n);
    if w in words && |w| == n then Ok((kind, LexState(p + n, w))) else StringToken(buf, p)
  }

  /** The indicator cases of GetNextToken's switch, for the character at
      `p`. `&`, `*`, `%` and the `-` of `- ` are reported without moving
      the cursor past them. */
  function IndicatorToken(buf: string, st: LexState, p: nat): (r: Result<Lexed, LexError>)
    requires p < |buf| && buf[p] in Indicators
    ensures r.Ok? ==> p <= r.value.1.pos <= |buf|
    ensures r.Ok? ==> r.value.0 !in {NullValue, BooleanValue, StringValue, EndOfBuffer}
    ensures r.Ok? && r.value.0 in {AnchorPrefix, AliasPrefix, DirectivePrefix, SequenceBlockPrefix} ==>
      r.value.1 == st.(pos := p)
  {
    var c := buf[p];
    if c == ':' then
      if At(buf, p + 1) != ' ' then Err(MissingSpaceAfterColon) else Ok((KeySeparator, st.(pos := p + 1)))
    else if c == ',' then Ok((ValueSeparator, st.(pos := p + 1)))
    else if c == '&' then Ok((AnchorPrefix, st.(pos := p)))
    else if c == '*' then Ok((AliasPrefix, st.(pos := p)))
    else if c == '#' then Ok((CommentPrefix, st.(pos := CommentEnd(buf, p))))
    else if c == '%' then Ok((DirectivePrefix, st.(pos := p)))
    else if c == '-' then
      if At(buf, p + 1) == ' ' then Ok((SequenceBlockPrefix, st.(pos := p))) else NumberToken(buf, p)
    else if c == '[' then Ok((SequenceFlowBegin, st.(pos := p + 1)))
    else if c == ']' then Ok((SequenceFlowEnd, st.(pos := p + 1)))
    else if c == '{' then Ok((MappingFlowBegin, st.(pos := p + 1)))
    else if c == '}' then Ok((MappingFlowEnd, st.(pos := p + 1)))
    else Err(ReservedIndicator(c))
  }

  /** The scalar cases of GetNextToken's switch: quoted strings, `~`, the
      special floats, the reserved words, and plain strings. */
  function ScalarToken(buf: string, p: nat): (r: Result<Lexed, LexError>)
    requires p < |buf|
    ensures r.Ok? ==> p <= r.value.1.pos <= |buf|
    ensures r.Ok? ==> r.value.0 in {NullValue, BooleanValue, FloatNumberValue, StringValue}
    ensures r.Ok? && r.value.0 == NullValue && r.value.1.value == "~" ==> r.value.1 == LexState(p, "~")
  {
    var c := buf[p];
    if c == '"' || c == '\'' then StringToken(buf, p)
    else if c == '~' then Ok((NullValue, LexState(p, "~")))
    else if c == '.' then
      var w := Substr(buf, p, 4);
      if w in InfWords || w in NanWords then Ok((FloatNumberValue, LexState(p + 4, w)))
      else StringToken(buf, p)
    else if c == 'F' || c == 'f' then WordToken(buf, p, 5, FalseWords, BooleanValue)
    else if c == 'N' || c == 'n' then WordToken(buf, p, 4, NullWords, NullValue)
    else if c == 'T' || c == 't' then WordToken(buf, p, 4, TrueWords, BooleanValue)
    else StringToken(buf, p)
  }

  /** The characters GetNextToken's switch treats as indicators. */
  const Indicators: set<char> := {':', ',', '&', '*', '#', '%', '-', '[', ']', '{', '}', '@', '`'}

  /** The token at `p`, the first character after blanks and line breaks. */
  function TokenAt(buf: string, st: LexState, p: nat): (r: Result<Lexed, LexError>)
    requires p <= |buf|
    ensures r.Ok? ==> p <= r.value.1.pos <= |buf|
  {
    var c := At(buf, p);
    if IsDigit(c) || c == '+' then NumberToken(buf, p)
    else if EndMark(c) then Ok((EndOfBuffer, st.(pos := p)))
    else if c in Indicators then IndicatorToken(buf, st, p)
    else ScalarToken(buf, p)
  }

  /** GetNextToken: skips blanks and line breaks and dispatches on the
      character found. */
  function GetNextToken(buf: string, st: LexState): (r: Result<Lexed, LexError>)
    requires st.pos <= |buf|
    ensures r.Ok? ==> st.pos <= r.value.1.pos <= |buf|
    ensures |buf| == 0 ==> r == Err(EmptyInput)
  {
    if |buf| == 0 then Err(EmptyInput) else TokenAt(buf, st, SkipWhiteSpaces(buf, st.pos))
  }

  /** The end of the buffer is reported exactly when only blanks and line
      breaks are left before the end or a 0xFF byte, and the cursor then
      stays there, so every later call reports it again. */
  lemma EndOfBufferMeaning(buf: string, st: LexState)
    requires CString(buf) && 0 < |buf| && st.pos <= |buf|
    ensures var p := SkipWhiteSpaces(buf, st.pos);
      var r := GetNextToken(buf, st);
      && (r.Ok? && r.value.0 == EndOfBuffer <==> p == |buf| || buf[p] as int == 0xFF)
      && (r.Ok? && r.value.0 == EndOfBuffer ==> r.value.1 == st.(pos := p) && GetNextToken(buf, r.value.1) == r)
  {
    var p := SkipWhiteSpaces(buf, st.pos);
    assert GetNextToken(buf, st) == TokenAt(buf, st, p);
    TokenAtEnd(buf, st, p);
    EndMarkAt(buf, p);
    if EndMark(At(buf, p)) {
      var st' := st.(pos := p);
      assert SkipWhiteSpaces(buf, p) == p;
      assert GetNextToken(buf, st') == TokenAt(buf, st', p);
      TokenAtEnd(buf, st', p);
    }
  }

  /** In a C string, the end mark is found only at the end or on 0xFF. */
  lemma EndMarkAt(buf: string, p: nat)
    requires CString(buf) && p <= |buf|
    ensures EndMark(At(buf, p)) <==> p == |buf| || buf[p] as int == 0xFF
  {
  }

  /** The dispatch reports the end exactly on the end mark, and leaves
      the cursor on it. */
  lemma TokenAtEnd(buf: string, st: LexState, p: nat)
    requires p <= |buf|
    ensures var r := TokenAt(buf, st, p);
      && (r.Ok? && r.value.0 == EndOfBuffer <==> EndMark(At(buf, p)))
      && (EndMark(At(buf, p)) ==> r == Ok((EndOfBuffer, st.(pos := p))))
  {
    var c := At(buf, p);
    if EndMark(c) {
    } else if IsDigit(c) || c == '+' {
      assert TokenAt(buf, st, p) == NumberToken(buf, p);
    } else if c in Indicators {
      assert TokenAt(buf, st, p) == IndicatorToken(buf, st, p);
    } else {
      assert TokenAt(buf, st, p) == ScalarToken(buf, p);
    }
  }


  /** Where null and boolean tokens come from: the `~` branch or a
      reserved word at the cursor. */
  lemma ScalarTokenOrigin(buf: string, st: LexState)
    requires st.pos <= |buf|
    ensures var p := SkipWhiteSpaces(buf, st.pos);
      var r := GetNextToken(buf, st);
      r.Ok? && (r.value.0 == NullValue || r.value.0 == BooleanValue) ==>
        p < |buf| &&
        ((buf[p] == '~' && r.value == (NullValue, LexState(p, "~")))
         || (buf[p] in "nN" && r == WordToken(buf, p, 4, NullWords, NullValue))
         || (buf[p] in "tT" && r == WordToken(buf, p, 4, TrueWords, BooleanValue))
         || (buf[p] in "fF" && r == WordToken(buf, p, 5, FalseWords, BooleanValue)))
  {
    var p := SkipWhiteSpaces(buf, st.pos);
    if 0 < |buf| {
      assert GetNextToken(buf, st) == TokenAt(buf, st, p);
      var c := At(buf, p);
      if !(IsDigit(c) || c == '+' || EndMark(c) || c in Indicators) {
        assert TokenAt(buf, st, p) == ScalarToken(buf, p);
      }
    }
  }

  /** A null or boolean token always holds a value buffer that GetNull or
      GetBoolean converts, and a boolean's truth is its first letter. */
  lemma ScalarTokensConvert(buf: string, st: LexState)
    requires st.pos <= |buf|
    ensures var r := GetNextToken(buf, st);
      && (r.Ok? && r.value.0 == NullValue ==> GetNull(r.value.1.value) == Ok(()))
      && (r.Ok? && r.value.0 == BooleanValue ==>
            GetBoolean(r.value.1.value) == Ok(buf[SkipWhiteSpaces(buf, st.pos)] in "tT"))
  {
    var p := SkipWhiteSpaces(buf, st.pos);
    var r := GetNextToken(buf, st);
    ScalarTokenOrigin(buf, st);
    if r.Ok? && (r.value.0 == NullValue || r.value.0 == BooleanValue) && buf[p] != '~' {
      var n := if buf[p] in "fF" then 5 else 4;
      assert Substr(buf, p, n)[0] == buf[p];
    }
  }

  /** Characters that GetNextToken hands to the scalar cases. */
  lemma ScalarDispatch(buf: string, st: LexState, p: nat)
    requires p < |buf| && buf[p] !in Indicators && !IsDigit(buf[p]) && buf[p] != '+' && !EndMark(buf[p])
    ensures TokenAt(buf, st, p) == ScalarToken(buf, p)
  {
  }

  /** Which letters the reserved words start with. */
  lemma WordInitials(w: string)
    requires |w| > 0
    ensures w in NullWords ==> w[0] == 'n' || w[0] == 'N'
    ensures w in TrueWords ==> w[0] == 't' || w[0] == 'T'
    ensures w in FalseWords ==> w[0] == 'f' || w[0] == 'F'
    ensures w in InfWords || w in NanWords ==> w[0] == '.'
  {
  }

  /** A reserved word at `p` is read by the scalar cases as its kind,
      with the word as the token's text. */
  lemma ReservedWordAt(buf: string, st: LexState, p: nat, n: nat, words: set<string>, kind: TokenType)
    requires 0 < n && p + n <= |buf|
    requires || (words == NullWords && n == 4 && kind == NullValue)
             || (words == TrueWords && n == 4 && kind == BooleanValue)
             || (words == FalseWords && n == 5 && kind == BooleanValue)
             || (words == InfWords && n == 4 && kind == FloatNumberValue)
             || (words == NanWords && n == 4 && kind == FloatNumberValue)
    requires buf[p..p + n] in words
    ensures TokenAt(buf, st, p) == Ok((kind, LexState(p + n, buf[p..p + n])))
  {
    var w := buf[p..p + n];
    assert buf[p] == w[0];
    WordInitials(w);
    ScalarDispatch(buf, st, p);
    assert Substr(buf, p, n) == w;
  }

  /** The null spellings are read as a null token, cursor past them,
      whatever follows. */
  lemma NullWordToken(buf: string, st: LexState)
    requires st.pos <= |buf|
    requires var p := SkipWhiteSpaces(buf, st.pos); p + 4 <= |buf| && buf[p..p + 4] in NullWords
    ensures var p := SkipWhiteSpaces(buf, st.pos);
      GetNextToken(buf, st) == Ok((NullValue, LexState(p + 4, buf[p..p + 4])))
  {
    ReservedWordAt(buf, st, SkipWhiteSpaces(buf, st.pos), 4, NullWords, NullValue);
  }

  /** Likewise the true spellings. */
  lemma TrueWordToken(buf: string, st: LexState)
    requires st.pos <= |buf|
    requires var p := SkipWhiteSpaces(buf, st.pos); p + 4 <= |buf| && buf[p..p + 4] in TrueWords
    ensures var p := SkipWhiteSpaces(buf, st.pos);
      GetNextToken(buf, st) == Ok((BooleanValue, LexState(p + 4, buf[p..p + 4])))
  {
    ReservedWordAt(buf, st, SkipWhiteSpaces(buf, st.pos), 4, TrueWords, BooleanValue);
  }

  /** Likewise the false spellings. */
  lemma FalseWordToken(buf: string, st: LexState)
    requires st.pos <= |buf|
    requires var p := SkipWhiteSpaces(buf, st.pos); p + 5 <= |buf| && buf[p..p + 5] in FalseWords
    ensures var p := SkipWhiteSpaces(buf, st.pos);
      GetNextToken(buf, st) == Ok((BooleanValue, LexState(p + 5, buf[p..p + 5])))
  {
    ReservedWordAt(buf, st, SkipWhiteSpaces(buf, st.pos), 5, FalseWords, BooleanValue);
  }

  /** And `.inf` in its spellings is a float. */
  lemma InfWordToken(buf: string, st: LexState)
    requires st.pos <= |buf|
    requires var p := SkipWhiteSpaces(buf, st.pos); p + 4 <= |buf| && buf[p..p + 4] in InfWords
    ensures var p := SkipWhiteSpaces(buf, st.pos);
      GetNextToken(buf, st) == Ok((FloatNumberValue, LexState(p + 4, buf[p..p + 4])))
  {
    ReservedWordAt(buf, st, SkipWhiteSpaces(buf, st.pos), 4, InfWords, FloatNumberValue);
  }

  /** As is `.nan` in its spellings. */
  lemma NanWordToken(buf: string, st: LexState)
    requires st.pos <= |buf|
    requires var p := SkipWhiteSpaces(buf, st.pos); p + 4 <= |buf| && buf[p..p + 4] in NanWords
    ensures var p := SkipWhiteSpaces(buf, st.pos);
      GetNextToken(buf, st) == Ok((FloatNumberValue, LexState(p + 4, buf[p..p + 4])))
  {
    ReservedWordAt(buf, st, SkipWhiteSpaces(buf, st.pos), 4, NanWords, FloatNumberValue);
  }

  /** A key separator must be followed by a space; the cursor is left on
      that space. */
  lemma ColonNeedsSpace(buf: string, st: LexState)
    requires st.pos <= |buf| && 0 < |buf|
    requires At(buf, SkipWhiteSpaces(buf, st.pos)) == ':'
    ensures var p := SkipWhiteSpaces(buf, st.pos);
      var r := GetNextToken(buf, st);
      && (r.Ok? <==> At(buf, p + 1) == ' ')
      && (r.Ok? ==> r.value == (KeySeparator, st.(pos := p + 1)))
      && (r.Err? ==> r.error == MissingSpaceAfterColon)
  {
  }

  /** The tokens reported without moving the cursor: the next call reports
      the same token again. */
  lemma TokensThatDoNotAdvance(buf: string, st: LexState)
    requires st.pos <= |buf|
    ensures var r := GetNextToken(buf, st);
      r.Ok? && r.value.0 in {AnchorPrefix, AliasPrefix, DirectivePrefix, SequenceBlockPrefix} ==>
        GetNextToken(buf, r.value.1) == r
    ensures var r := GetNextToken(buf, st);
      r.Ok? && r.value.1.value == "~" && r.value.0 == NullValue ==> GetNextToken(buf, r.value.1) == r
  {
    var p := SkipWhiteSpaces(buf, st.pos);
    var r := GetNextToken(buf, st);
    if r.Ok? && (r.value.0 in {AnchorPrefix, AliasPrefix, DirectivePrefix, SequenceBlockPrefix}
                 || (r.value.1.value == "~" && r.value.0 == NullValue)) {
      assert r == TokenAt(buf, st, p);
      assert r.value.1.pos == p;
      assert SkipWhiteSpaces(buf, p) == p;
      assert GetNextToken(buf, r.value.1) == TokenAt(buf, r.value.1, p);
      if r.value.0 != NullValue {
        assert r.value.1 == st.(pos := p);
      }
    }
  }
}
