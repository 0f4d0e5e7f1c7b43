/** Character-level helpers shared by the range scanner of
    include/fkYAML/detail/input/lexical_analyzer.hpp. The scanner never
    copies text: every token is a view into the input buffer, modelled here
    as a half-open range of positions. */
module ScanText {
  import opened Wrappers

  /** A view [begin, end) into the input buffer (the scanner's str_view). */
  datatype Range = Range(begin: nat, end: nat)

  /** URI validation, which is not part of this model: a parameter. */
  type UriCheck = string -> bool

  predicate InBuffer(buf: string, r: Range) {
    r.begin <= r.end <= |buf|
  }

  function Text(buf: string, r: Range): string
    requires InBuffer(buf, r)
  {
    buf[r.begin..r.end]
  }

  /** One value per distinct error the scanner throws. Reading outside the
      buffer is undefined behaviour in the C++ code and an error here. */
  datatype ScanError =
    | EmptyAnchorName
    | ReservedIndicator(c: char)
    | UnclosedSingleQuote
    | UnclosedDoubleQuote
    | UnescapedControlChar(c: char)
    | TooManyChompingIndicators
    | ZeroIndentationIndicator
    | TooManyIndentationIndicators
    | InvalidHeaderChar(c: char)
    | LessIndentedBlockScalar
    | MissingSpaceAfterDirectiveName
    | InvalidTagHandle
    | InvalidTagDirective
    | FlowIndicatorInTagPrefix
    | InvalidUri
    | UnsupportedYamlVersion
    | InvalidTagPrefix
    | VerbatimTagNotClosed
    | EmptyVerbatimTag
    | NamedHandleWithoutSuffix
    | FlowIndicatorInTagShorthand
    | ReadPastEnd
    | AssertionViolated

  const WhiteSpaces: set<char> := {' ', '\t'}
  const WhiteSpacesAndNewlines: set<char> := {' ', '\t', '\n'}
  const FlowIndicators: set<char> := {',', '[', ']', '{', '}'}
  const LineBreak: set<char> := {'\n'}

  /** `std::find_if_not` over a character class: the first position at or
      after `i` holding a character outside `cs`. */
  function SkipWhile(buf: string, i: nat, cs: set<char>): (r: nat)
    requires i <= |buf|
    ensures i <= r <= |buf|
    ensures forall k :: i <= k < r ==> buf[k] in cs
    ensures r < |buf| ==> buf[r] !in cs
    decreases |buf| - i
  {
    if i == |buf| || buf[i] !in cs then i else SkipWhile(buf, i + 1, cs)
  }

  /** `find` / `find_first_of`: the first position at or after `i` holding a
      character of `cs`, or the end of the buffer (npos). */
  function FindFirstOf(buf: string, i: nat, cs: set<char>): (r: nat)
    requires i <= |buf|
    ensures i <= r <= |buf|
    ensures forall k :: i <= k < r ==> buf[k] !in cs
    ensures r < |buf| ==> buf[r] in cs
    decreases |buf| - i
  {
    if i == |buf| || buf[i] in cs then i else FindFirstOf(buf, i + 1, cs)
  }

  /** How many positions in [lo, hi) hold a character of `cs`. */
  function CountIn(buf: string, lo: nat, hi: nat, cs: set<char>): nat
    requires lo <= hi <= |buf|
    decreases hi - lo
  {
    if hi == lo then 0 else CountIn(buf, lo, hi - 1, cs) + (if buf[hi - 1] in cs then 1 else 0)
  }

  /** The count taken from the front, as a forward scan sees it. */
  lemma {:induction false} CountInFront(buf: string, lo: nat, hi: nat, cs: set<char>)
    requires lo < hi <= |buf|
    ensures CountIn(buf, lo, hi, cs) == (if buf[lo] in cs then 1 else 0) + CountIn(buf, lo + 1, hi, cs)
    decreases hi - lo
  {
    if lo + 1 < hi {
      CountInFront(buf, lo, hi - 1, cs);
    }
  }

  /** `skip_until_line_end`: just past the next LF, or the end of the buffer. */
  function SkipUntilLineEnd(buf: string, i: nat): (r: nat)
    requires i <= |buf|
    ensures i <= r <= |buf|
    ensures r < |buf| ==> i < r && buf[r - 1] == '\n'
    ensures forall k :: i <= k < r && k + 1 != r ==> buf[k] != '\n'
  {
    var e := FindFirstOf(buf, i, LineBreak);
    if e < |buf| then e + 1 else e
  }

  /** `isalnum` in the C locale. */
  predicate IsAlnum(c: char) {
    ('0' <= c <= '9') || ('A' <= c <= 'Z') || ('a' <= c <= 'z')
  }

  /** The C0 control characters YAML requires to be escaped inside a scalar:
      everything below U+0020 except NUL, TAB, LF and CR. */
  predicate MustBeEscaped(c: char) {
    (0x01 <= c as int <= 0x08) || c as int == 0x0B || c as int == 0x0C || (0x0E <= c as int <= 0x1F)
  }

  /** `check_scalar_content`: the first character below U+0020 that the
      control-character switch rejects. */
  function CheckScalarContent(buf: string, i: nat, end: nat): (r: Result<(), ScanError>)
    requires i <= end <= |buf|
    ensures r.Ok? <==> forall k :: i <= k < end ==> !MustBeEscaped(buf[k])
    ensures r.Err? ==> exists k :: i <= k < end && MustBeEscaped(buf[k]) && r.error == UnescapedControlChar(buf[k])
    decreases end - i
  {
    if i == end then Ok(())
    else
      var c := buf[i];
      if c as int < 0x20 && c != '\0' && c != '\t' && c != '\n' && c != '\r' then Err(UnescapedControlChar(c))
      else CheckScalarContent(buf, i + 1, end)
  }
}
