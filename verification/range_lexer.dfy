/** get_next_token of lexical_analyzer.hpp: classifies the token at the
    cursor and moves the cursor past it. Tokens are views into the buffer;
    tokens without text carry no view. The lexer also keeps what the last
    directive and block scalar header held, and two state bits that the
    parser sets: flow context and directive section. */
module RangeLexer {
  import opened Wrappers
  import opened ScanText
  import opened PlainRange
  import opened QuotedRange
  import opened BlockScalar
  import opened AnchorTag
  import Directives

  datatype TokenKind =
    | EndOfBuffer
    | ExplicitKeyPrefix
    | KeySeparator
    | ValueSeparator
    | AnchorPrefix
    | AliasPrefix
    | TagPrefix
    | SequenceBlockPrefix
    | SequenceFlowBegin
    | SequenceFlowEnd
    | MappingFlowBegin
    | MappingFlowEnd
    | PlainScalar
    | SingleQuotedScalar
    | DoubleQuotedScalar
    | BlockLiteralScalar
    | BlockFoldedScalar
    | EndOfDirectives
    | EndOfDocument
    | YamlVerDirective
    | TagDirective
    | InvalidDirective

  /** A token and its view into the buffer (None: the empty default view). */
  datatype Token = Token(kind: TokenKind, str: Option<Range>)

  /** A token and the lexer after it. */
  type Lexed = (Token, Lexer)

  const FlowContextBit: bv32 := 1
  const DocumentDirectiveBit: bv32 := 2

  /** The lexer's own fields: cursor, state bits, and the views and header
      the last directive and block scalar stored. */
  datatype Lexer = Lexer(
    cur: nat,
    state: bv32,
    yamlVersion: Range,
    tagHandle: Range,
    tagPrefix: Range,
    blockHeader: BlockHeader)

  function NewLexer(): Lexer {
    Lexer(0, 0, Range(0, 0), Range(0, 0), Range(0, 0), DefaultHeader)
  }

  predicate InFlow(lx: Lexer) {
    lx.state & FlowContextBit != 0
  }

  predicate InDirectives(lx: Lexer) {
    lx.state & DocumentDirectiveBit != 0
  }

  /** Clears the bits of `mask` in `s`, then sets them again if `on`. */
  function SetBits(s: bv32, mask: bv32, on: bool): bv32 {
    var cleared := s & !mask;
    if on then cleared | mask else cleared
  }

  /** Each state bit reads back as it was set ... */
  lemma FlowBitReadsBack(s: bv32, isFlow: bool)
    ensures SetBits(s, FlowContextBit, isFlow) & FlowContextBit != 0 <==> isFlow
  {
  }

  lemma DirectiveBitReadsBack(s: bv32, isDirective: bool)
    ensures SetBits(s, DocumentDirectiveBit, isDirective) & DocumentDirectiveBit != 0 <==> isDirective
  {
  }

  /** ... and updating it leaves the other bit alone. */
  lemma FlowUpdateKeepsDirective(s: bv32, isFlow: bool)
    ensures SetBits(s, FlowContextBit, isFlow) & DocumentDirectiveBit == s & DocumentDirectiveBit
  {
  }

  lemma DirectiveUpdateKeepsFlow(s: bv32, isDirective: bool)
    ensures SetBits(s, DocumentDirectiveBit, isDirective) & FlowContextBit == s & FlowContextBit
  {
  }

  /** set_context_state: sets or clears the flow bit, keeps the directive
      bit and every other field. */
  function SetContextState(lx: Lexer, isFlow: bool): (r: Lexer)
    ensures InFlow(r) == isFlow
    ensures InDirectives(r) == InDirectives(lx)
    ensures r == lx.(state := r.state)
  {
    FlowBitReadsBack(lx.state, isFlow);
    FlowUpdateKeepsDirective(lx.state, isFlow);
    lx.(state := SetBits(lx.state, FlowContextBit, isFlow))
  }

  /** set_document_state: sets or clears the directive bit, keeps the flow
      bit and every other field. */
  function SetDocumentState(lx: Lexer, isDirective: bool): (r: Lexer)
    ensures InDirectives(r) == isDirective
    ensures InFlow(r) == InFlow(lx)
    ensures r == lx.(state := r.state)
  {
    DirectiveBitReadsBack(lx.state, isDirective);
    DirectiveUpdateKeepsFlow(lx.state, isDirective);
    lx.(state := SetBits(lx.state, DocumentDirectiveBit, isDirective))
  }

  /** A token and the cursor after it. */
  datatype Step = Step(token: Token, next: nat)

  /** A plain scalar from `i0`, checked for unescaped control characters. */
  function ScanPlain(buf: string, i0: nat, flow: bool): (r: Result<Step, ScanError>)
    requires i0 < |buf| && !EndsPlain(buf, i0, flow)
    ensures r.Ok? ==> i0 < r.value.next <= |buf|
    ensures r.Ok? ==> r.value == Step(Token(PlainScalar, Some(Range(i0, PlainEnd(buf, i0, flow)))), PlainEnd(buf, i0, flow))
    ensures r.Ok? <==> forall k :: i0 <= k < PlainEnd(buf, i0, flow) ==> !MustBeEscaped(buf[k])
  {
    var e := PlainEnd(buf, i0, flow);
    var _ :- CheckScalarContent(buf, i0, e);
    Ok(Step(Token(PlainScalar, Some(Range(i0, e))), e))
  }

  /** `?`: an explicit key prefix when a space follows, a one-character
      plain scalar at the end of the buffer, a plain scalar otherwise. */
  function ScanQuestion(buf: string, i0: nat, flow: bool): (r: Result<Step, ScanError>)
    requires i0 < |buf| && buf[i0] == '?'
    ensures r.Ok? ==> i0 < r.value.next <= |buf|
  {
    if i0 + 1 == |buf| then Ok(Step(Token(PlainScalar, Some(Range(i0, |buf|))), |buf|))
    else if buf[i0 + 1] == ' ' then Ok(Step(Token(ExplicitKeyPrefix, None), i0 + 1))
    else ScanPlain(buf, i0, flow)
  }

  /** `:`: a key separator when it ends the buffer or is followed by a
      blank or line break, or, in a flow context, by a flow indicator;
      otherwise the start of a plain scalar. */
  function ScanColon(buf: string, i0: nat, flow: bool): (r: Result<Step, ScanError>)
    requires i0 < |buf| && buf[i0] == ':'
    ensures r.Ok? ==> i0 < r.value.next <= |buf|
  {
    if i0 + 1 == |buf| then Ok(Step(Token(KeySeparator, None), i0 + 1))
    else if buf[i0 + 1] in WhiteSpacesAndNewlines then Ok(Step(Token(KeySeparator, None), i0 + 1))
    else if buf[i0 + 1] in FlowIndicators && flow then Ok(Step(Token(KeySeparator, None), i0 + 1))
    else ScanPlain(buf, i0, flow)
  }

  /** `-`: a block sequence entry when a blank or line break follows (the
      cursor then skips both characters), `---` the end of the directives,
      a plain scalar otherwise. The character after `-` is read without a
      bound check. */
  function ScanDash(buf: string, i0: nat, flow: bool): (r: Result<Step, ScanError>)
    requires i0 < |buf| && buf[i0] == '-'
    ensures r.Ok? ==> i0 < r.value.next <= |buf|
  {
    if i0 + 1 == |buf| then Err(ReadPastEnd)
    else if buf[i0 + 1] in WhiteSpacesAndNewlines then Ok(Step(Token(SequenceBlockPrefix, None), i0 + 2))
    else if |buf| - i0 > 2 && buf[i0..i0 + 3] == "---" then Ok(Step(Token(EndOfDirectives, None), i0 + 3))
    else ScanPlain(buf, i0, flow)
  }

  /** `.`: `...` ends the document, anything else is a plain scalar. */
  function ScanDot(buf: string, i0: nat, flow: bool): (r: Result<Step, ScanError>)
    requires i0 < |buf| && buf[i0] == '.'
    ensures r.Ok? ==> i0 < r.value.next <= |buf|
  {
    if |buf| - i0 > 2 && buf[i0..i0 + 3] == "..." then Ok(Step(Token(EndOfDocument, None), i0 + 3))
    else ScanPlain(buf, i0, flow)
  }

  /** A single-quoted scalar opened at `i0`: the view excludes both quotes
      and the cursor moves past the closing one. */
  function ScanSingleQuoted(buf: string, i0: nat): (r: Result<Step, ScanError>)
    requires i0 < |buf| && buf[i0] == '\''
    ensures r.Ok? ==> i0 < r.value.next <= |buf|
  {
    match SingleQuoteClose(buf, i0 + 1)
    case None => Err(UnclosedSingleQuote)
    case Some(q) =>
      var _ :- CheckScalarContent(buf, i0 + 1, q);
      Ok(Step(Token(SingleQuotedScalar, Some(Range(i0 + 1, q))), q + 1))
  }

  /** A double-quoted scalar opened at `i0`. */
  function ScanDoubleQuoted(buf: string, i0: nat): (r: Result<Step, ScanError>)
    requires i0 < |buf| && buf[i0] == '"'
    ensures r.Ok? ==> i0 < r.value.next <= |buf|
  {
    match DoubleQuoteClose(buf, i0 + 1, i0 + 1)
    case None => Err(UnclosedDoubleQuote)
    case Some(q) =>
      var _ :- CheckScalarContent(buf, i0 + 1, q);
      Ok(Step(Token(DoubleQuotedScalar, Some(Range(i0 + 1, q))), q + 1))
  }

  /** The double-quoted case as the C++ code writes it, whose backslash
      count stops at the scalar's first character. ScanAt uses the
      corrected ScanDoubleQuoted instead. */
  function ScanDoubleQuotedAsWritten(buf: string, i0: nat): (r: Result<Step, ScanError>)
    requires i0 < |buf| && buf[i0] == '"'
    ensures r.Ok? ==> i0 < r.value.next <= |buf|
  {
    match DoubleQuoteCloseAsWritten(buf, i0 + 1, i0 + 1)
    case None => Err(UnclosedDoubleQuote)
    case Some(q) =>
      var _ :- CheckScalarContent(buf, i0 + 1, q);
      Ok(Step(Token(DoubleQuotedScalar, Some(Range(i0 + 1, q))), q + 1))
  }

  /** The two double-quoted scans differ only on a scalar whose first
      character is a backslash. */
  lemma DoubleQuotedAgrees(buf: string, i0: nat)
    requires i0 < |buf| && buf[i0] == '"'
    requires i0 + 1 < |buf| ==> buf[i0 + 1] != '\\'
    ensures ScanDoubleQuotedAsWritten(buf, i0) == ScanDoubleQuoted(buf, i0)
  {
    DoubleQuoteCloseAgrees(buf, i0 + 1, i0 + 1);
  }

  /** The characters that start a token of their own, besides `#`. */
  const FlowTokens: set<char> := {',', '[', ']', '{', '}'}

  /** The one-character flow tokens. */
  function FlowToken(c: char): TokenKind
    requires c in FlowTokens
  {
    if c == ',' then ValueSeparator
    else if c == '[' then SequenceFlowBegin
    else if c == ']' then SequenceFlowEnd
    else if c == '{' then MappingFlowBegin
    else MappingFlowEnd
  }

  /** The switch of get_next_token for a token starting at `i0` that is
      not a comment. */
  function ScanAt(buf: string, lx: Lexer, i0: nat, validUri: UriCheck): (r: Result<Lexed, ScanError>)
    requires i0 < |buf| && buf[i0] != '#'
    requires buf[i0] !in WhiteSpacesAndNewlines
    ensures r.Ok? ==> i0 < r.value.1.cur <= |buf| && r.value.0.kind != EndOfBuffer
    ensures r.Ok? ==> r.value.1.state == lx.state
  {
    var c := buf[i0];
    var flow := InFlow(lx);
    if c in FlowTokens then Ok((Token(FlowToken(c), None), lx.(cur := i0 + 1)))
    else if c == '&' || c == '*' then
      var name :- ExtractAnchorName(buf, i0);
      Ok((Token(if c == '&' then AnchorPrefix else AliasPrefix, Some(name)), lx.(cur := name.end)))
    else if c == '!' then
      var tag :- ExtractTagName(buf, i0, validUri);
      Ok((Token(TagPrefix, Some(tag)), lx.(cur := tag.end)))
    else if c == '%' && InDirectives(lx) then
      var d :- Directives.ScanDirective(buf, i0, validUri);
      Ok(match d.directive
         case YamlVersionDirective(v) => (Token(YamlVerDirective, None), lx.(cur := d.next, yamlVersion := v))
         case TagDirective(h, p) => (Token(TagDirective, None), lx.(cur := d.next, tagHandle := h, tagPrefix := p))
         case InvalidDirective => (Token(InvalidDirective, None), lx.(cur := d.next)))
    else if c == '@' || c == '`' then Err(ReservedIndicator(c))
    else if c == '"' then
      var s :- ScanDoubleQuoted(buf, i0);
      Ok((s.token, lx.(cur := s.next)))
    else if c == '\'' then
      var s :- ScanSingleQuoted(buf, i0);
      Ok((s.token, lx.(cur := s.next)))
    else if c == '|' || c == '>' then
      var b :- ScanBlockScalar(buf, i0);
      Ok((Token(if c == '|' then BlockLiteralScalar else BlockFoldedScalar, Some(b.body)), lx.(cur := b.body.end, blockHeader := b.header)))
    else
      var s :-
        if c == '?' then ScanQuestion(buf, i0, flow)
        else if c == ':' then ScanColon(buf, i0, flow)
        else if c == '-' then ScanDash(buf, i0, flow)
        else if c == '.' then ScanDot(buf, i0, flow)
        else
          assert buf[i0] !in PlainFilter;
          ScanPlain(buf, i0, flow);
      Ok((s.token, lx.(cur := s.next)))
  }

  /** Where the next token starts: past blanks and line breaks. */
  function TokenStart(buf: string, cur: nat): (r: nat)
    requires cur <= |buf|
    ensures cur <= r <= |buf|
    ensures forall k :: cur <= k < r ==> buf[k] in WhiteSpacesAndNewlines
    ensures r < |buf| ==> buf[r] !in WhiteSpacesAndNewlines
  {
    SkipWhile(buf, cur, WhiteSpacesAndNewlines)
  }

  /** get_next_token. A comment is skipped up to its line end and
      scanning starts over, which terminates because the cursor moves.
      Every token other than the end of the buffer moves the cursor; the
      end of the buffer leaves it at the end. */
  function GetNextToken(buf: string, lx: Lexer, validUri: UriCheck): (r: Result<Lexed, ScanError>)
    requires lx.cur <= |buf|
    ensures r.Ok? ==> lx.cur <= r.value.1.cur <= |buf|
    ensures r.Ok? ==> (r.value.0.kind == EndOfBuffer <==> r.value.1.cur == |buf| && r.value.0 == Token(EndOfBuffer, None))
    ensures TokenStart(buf, lx.cur) == |buf| ==> r == Ok((Token(EndOfBuffer, None), lx.(cur := |buf|)))
    ensures r.Ok? && r.value.0.kind != EndOfBuffer ==> lx.cur < r.value.1.cur
    ensures r.Ok? ==> r.value.1.state == lx.state
    decreases |buf| - lx.cur
  {
    var i0 := TokenStart(buf, lx.cur);
    if i0 == |buf| then Ok((Token(EndOfBuffer, None), lx.(cur := i0)))
    else if buf[i0] == '#' then GetNextToken(buf, lx.(cur := SkipUntilLineEnd(buf, i0)), validUri)
    else ScanAt(buf, lx, i0, validUri)
  }

  /** A `:` is a key separator exactly when it ends the buffer or is
      followed by a blank or a line break, or by a flow indicator inside a
      flow context; any other `:` starts a plain scalar. */
  lemma ColonMeaning(buf: string, lx: Lexer, validUri: UriCheck)
    requires lx.cur <= |buf|
    requires TokenStart(buf, lx.cur) < |buf| && buf[TokenStart(buf, lx.cur)] == ':'
    ensures var i0 := TokenStart(buf, lx.cur);
      var r := GetNextToken(buf, lx, validUri);
      var sep := i0 + 1 == |buf| || buf[i0 + 1] in WhiteSpacesAndNewlines || (InFlow(lx) && buf[i0 + 1] in FlowIndicators);
      && (sep ==> r == Ok((Token(KeySeparator, None), lx.(cur := i0 + 1))))
      && (!sep && r.Ok? ==> r.value.0 == Token(PlainScalar, Some(Range(i0, PlainEnd(buf, i0, InFlow(lx))))))
  {
    var i0 := TokenStart(buf, lx.cur);
    var s := ScanColon(buf, i0, InFlow(lx));
    assert GetNextToken(buf, lx, validUri) == ScanAt(buf, lx, i0, validUri);
    assert ScanAt(buf, lx, i0, validUri) == if s.Ok? then Ok((s.value.token, lx.(cur := s.value.next))) else Err(s.error);
  }

  /** `%` starts a directive only in the directive section; elsewhere it
      starts a plain scalar. */
  lemma PercentMeaning(buf: string, lx: Lexer, validUri: UriCheck)
    requires lx.cur <= |buf|
    requires TokenStart(buf, lx.cur) < |buf| && buf[TokenStart(buf, lx.cur)] == '%'
    ensures var r := GetNextToken(buf, lx, validUri);
      && (!InDirectives(lx) && r.Ok? ==> r.value.0.kind == PlainScalar)
      && (InDirectives(lx) && r.Ok? ==> r.value.0.kind in {YamlVerDirective, TagDirective, InvalidDirective} && r.value.0.str == None)
  {
    var i0 := TokenStart(buf, lx.cur);
    assert buf[i0] !in PlainFilter;
  }

  /** `&` and `*` give an anchor or alias whose name is the view
      extract_anchor_name found; an empty name is an error. */
  lemma AnchorMeaning(buf: string, lx: Lexer, validUri: UriCheck)
    requires lx.cur <= |buf|
    requires TokenStart(buf, lx.cur) < |buf| && buf[TokenStart(buf, lx.cur)] in AnchorIndicators
    ensures var i0 := TokenStart(buf, lx.cur);
      var r := GetNextToken(buf, lx, validUri);
      var name := ExtractAnchorName(buf, i0);
      && (r.Ok? <==> name.Ok?)
      && (r.Err? ==> r.error == EmptyAnchorName)
      && (r.Ok? ==> r.value.0 == Token(if buf[i0] == '&' then AnchorPrefix else AliasPrefix, Some(name.value)))
  {
  }

  /** `-` at a token start: it reads past a `-` that ends the buffer;
      followed by a blank or a line break it is a block sequence entry and
      the cursor skips both characters; `---` ends the directives; any
      other `-` starts a plain scalar. */
  lemma DashMeaning(buf: string, lx: Lexer, validUri: UriCheck)
    requires lx.cur <= |buf|
    requires TokenStart(buf, lx.cur) < |buf| && buf[TokenStart(buf, lx.cur)] == '-'
    ensures var i0 := TokenStart(buf, lx.cur);
      var r := GetNextToken(buf, lx, validUri);
      var entry := i0 + 1 < |buf| && buf[i0 + 1] in WhiteSpacesAndNewlines;
      var marker := i0 + 2 < |buf| && buf[i0 + 1] == '-' && buf[i0 + 2] == '-';
      && (i0 + 1 == |buf| ==> r == Err(ReadPastEnd))
      && (entry ==> r == Ok((Token(SequenceBlockPrefix, None), lx.(cur := i0 + 2))))
      && (marker ==> r == Ok((Token(EndOfDirectives, None), lx.(cur := i0 + 3))))
      && (i0 + 1 < |buf| && !entry && !marker && r.Ok? ==>
            r.value.0 == Token(PlainScalar, Some(Range(i0, PlainEnd(buf, i0, InFlow(lx))))))
  {
    var i0 := TokenStart(buf, lx.cur);
    var s := ScanDash(buf, i0, InFlow(lx));
    assert GetNextToken(buf, lx, validUri) == ScanAt(buf, lx, i0, validUri);
    assert ScanAt(buf, lx, i0, validUri) == if s.Ok? then Ok((s.value.token, lx.(cur := s.value.next))) else Err(s.error);
    if i0 + 2 < |buf| && buf[i0 + 1] == '-' && buf[i0 + 2] == '-' {
      assert buf[i0..i0 + 3] == "---";
    } else if i0 + 2 < |buf| {
      assert buf[i0..i0 + 3][1] == buf[i0 + 1] && buf[i0..i0 + 3][2] == buf[i0 + 2];
    }
  }

  /** `.` at a token start: `...` ends the document and the cursor moves
      past it; any other `.` starts a plain scalar. */
  lemma DotMeaning(buf: string, lx: Lexer, validUri: UriCheck)
    requires lx.cur <= |buf|
    requires TokenStart(buf, lx.cur) < |buf| && buf[TokenStart(buf, lx.cur)] == '.'
    ensures var i0 := TokenStart(buf, lx.cur);
      var r := GetNextToken(buf, lx, validUri);
      var marker := i0 + 2 < |buf| && buf[i0 + 1] == '.' && buf[i0 + 2] == '.';
      && (marker ==> r == Ok((Token(EndOfDocument, None), lx.(cur := i0 + 3))))
      && (!marker && r.Ok? ==> r.value.0 == Token(PlainScalar, Some(Range(i0, PlainEnd(buf, i0, InFlow(lx))))))
  {
    var i0 := TokenStart(buf, lx.cur);
    var s := ScanDot(buf, i0, InFlow(lx));
    assert GetNextToken(buf, lx, validUri) == ScanAt(buf, lx, i0, validUri);
    assert ScanAt(buf, lx, i0, validUri) == if s.Ok? then Ok((s.value.token, lx.(cur := s.value.next))) else Err(s.error);
    if i0 + 2 < |buf| && buf[i0 + 1] == '.' && buf[i0 + 2] == '.' {
      assert buf[i0..i0 + 3] == "...";
    } else if i0 + 2 < |buf| {
      assert buf[i0..i0 + 3][1] == buf[i0 + 1] && buf[i0..i0 + 3][2] == buf[i0 + 2];
    }
  }

  /** The scalar `"\\"` holds one escaped backslash. The scanner reports
      it as a double-quoted scalar over the two backslashes, while the
      source's own count leaves it unterminated. */
  lemma EscapedBackslashToken(validUri: UriCheck)
    ensures var buf := "\"\\\\\"";
      && GetNextToken(buf, NewLexer(), validUri) == Ok((Token(DoubleQuotedScalar, Some(Range(1, 3))), NewLexer().(cur := 4)))
      && ScanDoubleQuotedAsWritten(buf, 0) == Err(UnclosedDoubleQuote)
  {
    var buf := "\"\\\\\"";
    EscapedBackslashUnclosedAsWritten();
    assert TokenStart(buf, 0) == 0;
    assert CheckScalarContent(buf, 1, 3).Ok?;
    assert GetNextToken(buf, NewLexer(), validUri) == ScanAt(buf, NewLexer(), 0, validUri);
  }

  /** Calls get_next_token until the end of the buffer with the state
      bits fixed, collecting the tokens. The loop ends because every token
      but the last moves the cursor forward. */
  method Tokenize(buf: string, lx0: Lexer, validUri: UriCheck) returns (r: Result<seq<Token>, ScanError>)
    requires lx0.cur <= |buf|
    ensures r.Ok? ==> 0 < |r.value| <= |buf| - lx0.cur + 1
    ensures r.Ok? ==> r.value[|r.value| - 1] == Token(EndOfBuffer, None)
    ensures r.Ok? ==> forall k :: 0 <= k < |r.value| - 1 ==> r.value[k].kind != EndOfBuffer
  {
    var lx := lx0;
    var toks: seq<Token> := [];
    while true
      invariant lx0.cur <= lx.cur <= |buf|
      invariant |toks| <= lx.cur - lx0.cur
      invariant forall k :: 0 <= k < |toks| ==> toks[k].kind != EndOfBuffer
      decreases |buf| - lx.cur
    {
      var step := GetNextToken(buf, lx, validUri);
      if step.Err? {
        return Err(step.error);
      }
      var (tok, next) := step.value;
      if tok.kind == EndOfBuffer {
        return Ok(toks + [tok]);
      }
      toks := toks + [tok];
      lx := next;
    }
  }
}
