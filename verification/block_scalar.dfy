/** Block scalars (`|` literal and `>` folded) in lexical_analyzer.hpp: the
    header line after the indicator (convert_to_block_scalar_header) and the
    extent of the indented body (scan_block_style_string_token). */
module BlockScalar {
  import opened Wrappers
  import opened ScanText

  datatype Chomping = Clip | Strip | Keep

  /** Chomping indicator and explicit indentation (0: none given). */
  datatype BlockHeader = BlockHeader(chomp: Chomping, indent: nat)

  const DefaultHeader: BlockHeader := BlockHeader(Clip, 0)

  const ChompingChars: set<char> := {'-', '+'}
  const IndentDigits: set<char> := {'1', '2', '3', '4', '5', '6', '7', '8', '9'}
  const HeaderChars: set<char> := {' ', '\t', '-', '+', '1', '2', '3', '4', '5', '6', '7', '8', '9'}

  /** Whether `x` occurs among the first `i` characters of `s`. */
  predicate Occurs(s: string, i: nat, x: char)
    requires i <= |s|
  {
    exists k :: 0 <= k < i && s[k] == x
  }

  /** Reference reading of a header: only blanks, at most one chomping
      indicator and at most one indentation digit 1-9. */
  predicate ValidHeader(s: string) {
    && (forall k :: 0 <= k < |s| ==> s[k] in HeaderChars)
    && CountIn(s, 0, |s|, ChompingChars) <= 1
    && CountIn(s, 0, |s|, IndentDigits) <= 1
  }

  function ChompOf(s: string, i: nat): Chomping
    requires i <= |s|
  {
    if Occurs(s, i, '-') then Strip else if Occurs(s, i, '+') then Keep else Clip
  }

  /** One character of the header applied to the header read so far. */
  function ApplyHeaderChar(h: BlockHeader, c: char): Result<BlockHeader, ScanError> {
    if c == '-' then
      if h.chomp != Clip then Err(TooManyChompingIndicators) else Ok(h.(chomp := Strip))
    else if c == '+' then
      if h.chomp != Clip then Err(TooManyChompingIndicators) else Ok(h.(chomp := Keep))
    else if c == '0' then
      Err(ZeroIndentationIndicator)
    else if '1' <= c <= '9' then
      if h.indent > 0 then Err(TooManyIndentationIndicators) else Ok(h.(indent := c as int - '0' as int))
    else if c == ' ' || c == '\t' then
      Ok(h)
    else
      Err(InvalidHeaderChar(c))
  }

  /** The loop over the header characters after its first `i` steps. */
  function HeaderUpTo(s: string, i: nat): Result<BlockHeader, ScanError>
    requires i <= |s|
  {
    if i == 0 then Ok(DefaultHeader)
    else
      var h :- HeaderUpTo(s, i - 1);
      ApplyHeaderChar(h, s[i - 1])
  }

  function HeaderOf(s: string): Result<BlockHeader, ScanError> {
    HeaderUpTo(s, |s|)
  }

  /** Position of the last indentation digit among the first `i`
      characters (0 when there is none). */
  function DigitPos(s: string, i: nat): (r: nat)
    requires i <= |s|
    ensures i > 0 ==> r < i
  {
    if i == 0 then 0
    else if s[i - 1] in IndentDigits then i - 1
    else DigitPos(s, i - 1)
  }

  /** What the loop has computed after `i` steps, in terms of the first `i`
      characters alone. */
  predicate HeaderMeaning(s: string, i: nat, r: Result<BlockHeader, ScanError>)
    requires i <= |s|
  {
    && (r.Ok? <==> (forall k :: 0 <= k < i ==> s[k] in HeaderChars) && CountIn(s, 0, i, ChompingChars) <= 1 && CountIn(s, 0, i, IndentDigits) <= 1)
    && (r.Ok? ==> r.value.chomp == ChompOf(s, i))
    && (r.Ok? ==> (r.value.chomp == Clip <==> CountIn(s, 0, i, ChompingChars) == 0))
    && (r.Ok? ==> (r.value.indent == 0 <==> CountIn(s, 0, i, IndentDigits) == 0))
    && (r.Ok? && r.value.indent > 0 ==> 1 <= r.value.indent <= 9 && s[DigitPos(s, i)] as int == '0' as int + r.value.indent)
  }

  lemma OccursStep(s: string, i: nat, x: char)
    requires 0 < i <= |s|
    ensures Occurs(s, i, x) <==> Occurs(s, i - 1, x) || s[i - 1] == x
  {
    if Occurs(s, i, x) && s[i - 1] != x {
      var k :| 0 <= k < i && s[k] == x;
      assert k < i - 1;
    }
  }

  lemma {:induction false} HeaderUpToMeaning(s: string, i: nat)
    requires i <= |s|
    ensures HeaderMeaning(s, i, HeaderUpTo(s, i))
  {
    if i > 0 {
      HeaderUpToMeaning(s, i - 1);
      if HeaderUpTo(s, i - 1).Ok? {
        OccursStep(s, i, '-');
        OccursStep(s, i, '+');
        if s[i - 1] in ChompingChars {
          ChompingStep(s, i);
        } else if s[i - 1] in IndentDigits {
          DigitStep(s, i);
        } else {
          OtherStep(s, i);
        }
      }
    }
  }

  lemma ChompingStep(s: string, i: nat)
    requires 0 < i <= |s| && s[i - 1] in ChompingChars
    requires HeaderUpTo(s, i - 1).Ok? && HeaderMeaning(s, i - 1, HeaderUpTo(s, i - 1))
    requires Occurs(s, i, '-') <==> Occurs(s, i - 1, '-') || s[i - 1] == '-'
    requires Occurs(s, i, '+') <==> Occurs(s, i - 1, '+') || s[i - 1] == '+'
    ensures HeaderMeaning(s, i, HeaderUpTo(s, i))
  {
    assert DigitPos(s, i) == DigitPos(s, i - 1);
    if ChompOf(s, i - 1) == Clip {
      assert !Occurs(s, i - 1, '-');
    }
  }

  lemma DigitStep(s: string, i: nat)
    requires 0 < i <= |s| && s[i - 1] in IndentDigits
    requires HeaderUpTo(s, i - 1).Ok? && HeaderMeaning(s, i - 1, HeaderUpTo(s, i - 1))
    requires Occurs(s, i, '-') <==> Occurs(s, i - 1, '-') || s[i - 1] == '-'
    requires Occurs(s, i, '+') <==> Occurs(s, i - 1, '+') || s[i - 1] == '+'
    ensures HeaderMeaning(s, i, HeaderUpTo(s, i))
  {
    assert ChompOf(s, i) == ChompOf(s, i - 1);
  }

  lemma OtherStep(s: string, i: nat)
    requires 0 < i <= |s| && s[i - 1] !in ChompingChars && s[i - 1] !in IndentDigits
    requires HeaderUpTo(s, i - 1).Ok? && HeaderMeaning(s, i - 1, HeaderUpTo(s, i - 1))
    requires Occurs(s, i, '-') <==> Occurs(s, i - 1, '-') || s[i - 1] == '-'
    requires Occurs(s, i, '+') <==> Occurs(s, i - 1, '+') || s[i - 1] == '+'
    ensures HeaderMeaning(s, i, HeaderUpTo(s, i))
  {
    assert ChompOf(s, i) == ChompOf(s, i - 1);
    assert DigitPos(s, i) == DigitPos(s, i - 1);
  }

  /** The header loop accepts exactly the valid headers and then reports
      the indicators they hold, whatever order they come in. */
  lemma HeaderOfMeaning(s: string)
    ensures HeaderOf(s).Ok? <==> ValidHeader(s)
    ensures HeaderOf(s).Ok? ==> HeaderOf(s).value.chomp == ChompOf(s, |s|)
    ensures HeaderOf(s).Ok? ==> (HeaderOf(s).value.indent == 0 <==> CountIn(s, 0, |s|, IndentDigits) == 0)
    ensures HeaderOf(s).Ok? && HeaderOf(s).value.indent > 0 ==>
      1 <= HeaderOf(s).value.indent <= 9 && Occurs(s, |s|, ('0' as int + HeaderOf(s).value.indent) as char)
  {
    HeaderUpToMeaning(s, |s|);
    if HeaderOf(s).Ok? && HeaderOf(s).value.indent > 0 {
      var k := DigitPos(s, |s|);
      assert s[k] == ('0' as int + HeaderOf(s).value.indent) as char;
    }
  }

  /** Position of the first " #" in `s`, or |s|. */
  function CommentStart(s: string): (r: nat)
    ensures r <= |s|
    ensures r < |s| ==> r + 1 < |s| && s[r] == ' ' && s[r + 1] == '#'
    ensures forall k :: 0 <= k < r && k + 1 < |s| ==> !(s[k] == ' ' && s[k + 1] == '#')
    decreases |s|
  {
    if |s| < 2 then |s|
    else if s[0] == ' ' && s[1] == '#' then 0
    else
      var r := CommentStart(s[1..]);
      assert forall k :: 1 <= k < r + 1 && k + 1 < |s| ==> s[k] == s[1..][k - 1] && s[k + 1] == s[1..][k];
      if r < |s| - 1 then r + 1 else |s|
  }

  /** convert_to_block_scalar_header: the header line up to a trailing
      comment " #..." is read as a header. */
  function ConvertHeader(line: string): Result<BlockHeader, ScanError> {
    HeaderOf(line[..CommentStart(line)])
  }

  /** A header line is accepted exactly when the part before its comment is
      a valid header, and the chomping read is the indicator it holds. */
  lemma ConvertHeaderMeaning(line: string)
    ensures ConvertHeader(line).Ok? <==> ValidHeader(line[..CommentStart(line)])
    ensures ConvertHeader(line).Ok? ==> ConvertHeader(line).value.chomp == ChompOf(line, CommentStart(line))
  {
    var s := line[..CommentStart(line)];
    HeaderOfMeaning(s);
    assert forall x :: Occurs(s, |s|, x) <==> Occurs(line, CommentStart(line), x) by {
      forall x
        ensures Occurs(s, |s|, x) <==> Occurs(line, CommentStart(line), x)
      {
        if Occurs(line, CommentStart(line), x) {
          var k :| 0 <= k < CommentStart(line) && line[k] == x;
          assert s[k] == x;
        }
      }
    }
  }

  /** The line starting at `j` holds content (not just spaces and a line
      break) indented by fewer than `indent` spaces. */
  predicate LessIndentedContent(buf: string, j: nat, indent: nat)
    requires j <= |buf|
  {
    var c := j + LeadingSpaces(buf, j);
    c < |buf| && buf[c] != '\n' && c - j < indent
  }

  /** The number of spaces starting at `j` (`find_first_not_of(' ', j)`
      minus `j`). */
  function LeadingSpaces(buf: string, j: nat): (n: nat)
    requires j <= |buf|
    ensures j + n <= |buf|
    decreases |buf| - j
  {
    if j == |buf| || buf[j] != ' ' then 0 else 1 + LeadingSpaces(buf, j + 1)
  }

  lemma {:induction false} LeadingSpacesMeaning(buf: string, j: nat)
    requires j <= |buf|
    ensures forall k :: j <= k < j + LeadingSpaces(buf, j) ==> buf[k] == ' '
    ensures j + LeadingSpaces(buf, j) < |buf| ==> buf[j + LeadingSpaces(buf, j)] != ' '
    decreases |buf| - j
  {
    if j < |buf| && buf[j] == ' ' {
      LeadingSpacesMeaning(buf, j + 1);
    }
  }

  /** The line-by-line loop of scan_block_style_string_token, from the line
      break at `lnl`: the position of the line break after which a
      less-indented content line starts, or the end of the buffer. */
  function BlockEndFrom(buf: string, lnl: nat, indent: nat): (r: nat)
    requires lnl <= |buf|
    requires lnl < |buf| ==> buf[lnl] == '\n'
    ensures lnl <= r <= |buf|
    ensures r < |buf| ==> buf[r] == '\n' && LessIndentedContent(buf, r + 1, indent)
    ensures forall p :: lnl <= p < r && buf[p] == '\n' ==> !LessIndentedContent(buf, p + 1, indent)
    decreases |buf| - lnl
  {
    if lnl == |buf| then |buf|
    else
      if LessIndentedContent(buf, lnl + 1, indent) then lnl
      else
        var next := FindFirstOf(buf, lnl + 1, LineBreak);
        BlockEndFrom(buf, next, indent)
  }

  /** The position after the last line break in [s, j), or `s`. */
  function LineStart(buf: string, s: nat, j: nat): (r: nat)
    requires s <= j <= |buf|
    ensures s <= r <= j
    ensures r == s || buf[r - 1] == '\n'
    ensures forall k :: r <= k < j ==> buf[k] != '\n'
    decreases j - s
  {
    if j == s || buf[j - 1] == '\n' then j else LineStart(buf, s, j - 1)
  }

  /** Extent and indentation of a block scalar body. */
  datatype BlockBody = BlockBody(end: nat, indent: nat)

  /** The end of a body whose first content character is at `f`: just
      after the line break that precedes the first less-indented content
      line, or the end of the buffer. Every line in between is blank or
      indented at least `indent`. */
  function BodyEnd(buf: string, f: nat, indent: nat): (r: nat)
    requires f < |buf|
    ensures f < r <= |buf|
    ensures r < |buf| ==> buf[r - 1] == '\n' && LessIndentedContent(buf, r, indent)
    ensures forall p :: f < p && p + 1 < r && buf[p] == '\n' ==> !LessIndentedContent(buf, p + 1, indent)
  {
    var lnl := FindFirstOf(buf, f + 1, LineBreak);
    var e := BlockEndFrom(buf, lnl, indent);
    if e < |buf| then e + 1 else e
  }

  /** scan_block_style_string_token from the start `s` of the line after
      the header, with the indentation the header gave (0: none). */
  function ScanBlockBody(buf: string, s: nat, headerIndent: nat): (r: Result<BlockBody, ScanError>)
    requires s <= |buf|
  {
    var f := SkipWhile(buf, s, WhiteSpacesAndNewlines);
    if f == |buf| then Ok(BlockBody(|buf|, |buf| - s))
    else
      var curIndent := f - LineStart(buf, s, f);
      if headerIndent != 0 && curIndent < headerIndent then Err(LessIndentedBlockScalar)
      else
        var indent := if headerIndent == 0 then curIndent else headerIndent;
        Ok(BlockBody(BodyEnd(buf, f, indent), indent))
  }

  /** `f` stands in column `c` of its line: the `c` characters before it
      contain no line break and start a line (or start at `s`). */
  predicate Column(buf: string, s: nat, f: nat, c: nat) {
    s + c <= f <= |buf| && (f - c == s || buf[f - c - 1] == '\n')
    && forall k :: f - c <= k < f ==> buf[k] != '\n'
  }

  /** Every position has exactly one column, the one LineStart gives. */
  lemma ColumnIsLineStart(buf: string, s: nat, f: nat, c: nat)
    requires s <= f <= |buf|
    ensures Column(buf, s, f, f - LineStart(buf, s, f))
    ensures Column(buf, s, f, c) ==> c == f - LineStart(buf, s, f)
  {
  }

  /** The body starts at its first non-blank character `f`, whose line sets
      the indentation unless the header gave one, in which case that line
      must be indented at least as far. An all-blank rest of the buffer is
      an empty body whose indentation is its length. */
  lemma ScanBlockBodyMeaning(buf: string, s: nat, headerIndent: nat)
    requires s <= |buf|
    ensures var r := ScanBlockBody(buf, s, headerIndent);
      var f := SkipWhile(buf, s, WhiteSpacesAndNewlines);
      && (f == |buf| ==> r == Ok(BlockBody(|buf|, |buf| - s)))
      && (f < |buf| ==>
        && (r.Err? <==> 0 < headerIndent && f - LineStart(buf, s, f) < headerIndent)
        && (r.Ok? ==> r.value.indent == (if headerIndent == 0 then f - LineStart(buf, s, f) else headerIndent))
        && (r.Ok? ==> r.value.end == BodyEnd(buf, f, r.value.indent)))
    ensures var r := ScanBlockBody(buf, s, headerIndent);
      var f := SkipWhile(buf, s, WhiteSpacesAndNewlines);
      f < |buf| ==> forall c: nat :: Column(buf, s, f, c) ==>
        && (r.Err? <==> 0 < headerIndent && c < headerIndent)
        && (r.Ok? ==> r.value.indent == (if headerIndent == 0 then c else headerIndent))
  {
    var f := SkipWhile(buf, s, WhiteSpacesAndNewlines);
    if f < |buf| {
      forall c: nat | Column(buf, s, f, c)
        ensures c == f - LineStart(buf, s, f)
      {
        ColumnIsLineStart(buf, s, f, c);
      }
    }
  }

  lemma ScanBlockBodyEnd(buf: string, s: nat, headerIndent: nat)
    requires s <= |buf|
    requires ScanBlockBody(buf, s, headerIndent).Ok?
    ensures var e := ScanBlockBody(buf, s, headerIndent).value.end;
      s <= e <= |buf| && (e < |buf| ==> s < e && buf[e - 1] == '\n')
  {
  }

  /** The whole block scalar token starting at the indicator `i` (`|` or
      `>`): header line, then body. */
  datatype BlockScalarToken = BlockScalarToken(body: Range, header: BlockHeader)

  const BlockIndicators: set<char> := {'|', '>'}

  function ScanBlockScalar(buf: string, i: nat): (r: Result<BlockScalarToken, ScanError>)
    requires i < |buf| && buf[i] in BlockIndicators
    ensures r.Ok? ==> i < r.value.body.begin <= r.value.body.end <= |buf|
  {
    var nl := FindFirstOf(buf, i, LineBreak);
    if nl == |buf| then Err(AssertionViolated)
    else
      var header := ConvertHeader(buf[i + 1..nl]);
      if header.Err? then Err(header.error)
      else
        var body := ScanBlockBody(buf, nl + 1, header.value.indent);
        if body.Err? then Err(body.error)
        else
          ScanBlockBodyEnd(buf, nl + 1, header.value.indent);
          Ok(BlockScalarToken(Range(nl + 1, body.value.end), header.value.(indent := body.value.indent)))
  }

  /** The header is the rest of the indicator's line, which must end in a
      line break; the body starts on the next line, ends just after a line
      break (or at the end of the buffer), and its indentation and chomping
      are those the header and the body scan determined. */
  lemma ScanBlockScalarMeaning(buf: string, i: nat)
    requires i < |buf| && buf[i] in BlockIndicators
    ensures var r := ScanBlockScalar(buf, i);
      var nl := FindFirstOf(buf, i, LineBreak);
      && (nl == |buf| ==> r == Err(AssertionViolated))
      && (r.Ok? ==> nl < |buf| && r.value.body.begin == nl + 1)
      && (r.Ok? ==> ConvertHeader(buf[i + 1..nl]).Ok?)
      && (r.Ok? ==> r.value.header.chomp == ConvertHeader(buf[i + 1..nl]).value.chomp)
      && (r.Ok? ==> ScanBlockBody(buf, nl + 1, ConvertHeader(buf[i + 1..nl]).value.indent) == Ok(BlockBody(r.value.body.end, r.value.header.indent)))
      && (r.Ok? && r.value.body.end < |buf| ==> buf[r.value.body.end - 1] == '\n')
  {
    if ScanBlockScalar(buf, i).Ok? {
      ScanBlockScalarOk(buf, i);
    }
  }

  /** The facts ScanBlockScalarMeaning states about a successful scan. */
  lemma ScanBlockScalarOk(buf: string, i: nat)
    requires i < |buf| && buf[i] in BlockIndicators
    requires ScanBlockScalar(buf, i).Ok?
    ensures var r := ScanBlockScalar(buf, i).value;
      var nl := FindFirstOf(buf, i, LineBreak);
      && nl < |buf| && r.body.begin == nl + 1
      && ConvertHeader(buf[i + 1..nl]).Ok?
      && r.header.chomp == ConvertHeader(buf[i + 1..nl]).value.chomp
      && ScanBlockBody(buf, nl + 1, ConvertHeader(buf[i + 1..nl]).value.indent) == Ok(BlockBody(r.body.end, r.header.indent))
      && (r.body.end < |buf| ==> buf[r.body.end - 1] == '\n')
  {
    var nl := FindFirstOf(buf, i, LineBreak);
    var header := ConvertHeader(buf[i + 1..nl]);
    var body := ScanBlockBody(buf, nl + 1, header.value.indent);
    ScanBlockBodyEnd(buf, nl + 1, header.value.indent);
    assert ScanBlockScalar(buf, i).value == BlockScalarToken(Range(nl + 1, body.value.end), header.value.(indent := body.value.indent));
  }
}
