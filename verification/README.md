# fkYAML parsing core in Dafny

This project models the parsing pipeline of fkYAML, a header-only C++ YAML
library, and proves properties of it. It covers these parts:

- **Range scanner** (`lexical_analyzer.hpp`).
  - `get_next_token` classifies the next token of a `char` buffer and hands back views (ranges) into it.
  - It is modelled as pure functions over `string` with index cursors that return `Result`. One module per concern:
    - `ScanText`: skip helpers and the control-character check;
    - `PlainRange`: plain scalars;
    - `QuotedRange`: single- and double-quoted scalars;
    - `AnchorTag`: anchors, aliases and tags;
    - `Directives`: `%YAML` and `%TAG`;
    - `BlockScalar`: block-scalar headers and bodies;
    - `RangeLexer`: the dispatch, the two state bits, and a tokenizing loop.
- **Older value lexer** (`LexicalAnalyzer.hpp`, module `ValueLexer`).
  - It covers the core-schema literals (section 10.3.2 of the YAML 1.2.2 specification) and the number automaton that tells unsigned, signed and float numbers apart.
  - It covers the string scanner, with its escape table (section 5.7).
  - It covers `GetNextToken` over a C string.
- **Deserializer** (`deserializer.hpp`, module `Deserializer`).
  - It is a token-driven state machine. It builds a node tree using a current node, a node stack, an indent stack, a pending anchor, an anchor table and a YAML version.
  - Its input is an abstract token sequence.
  - Raw pointers into the tree are replaced by paths from the root (`YamlNode.Path`).
- **`OrderedMap`**: an insertion-ordered association list, which is the mapping type of nodes.
- **`from_node`** (module `FromNode`): typed extraction from a node, with the integer narrowing check.
- **Node kinds**: the seven kinds of `NodeType.hpp` as `YamlNode.NodeType`.

Conventions:
- Every error exit of the C++ code (an exception, `emit_error`, a failed `FK_YAML_ASSERT`) is an `Err` value.
- Every read the C++ code makes without a bound check is either:
  - an explicit error (the range scanner), or
  - the NUL a `std::string` holds at its size (the value lexer, whose input is a C string), with one exception. A quoted string whose line break is followed only by blanks up to the end reads one character beyond that NUL (`include/fkYAML/LexicalAnalyzer.hpp:823-831`), and the model makes that read the explicit error `ReadPastEnd`.
- URI validity (`uri_encoding::validate`, not part of this model) is a function parameter `validUri`.

## Model

| member | source | states |
|---|---|---|
| OrderedMap.Find | include/fkYAML/OrderedMap.hpp:176-186 | the result is the position of the first entry with the key, or the size (the `end()` iterator) exactly when the key is absent |
| OrderedMap.FindAppended | include/fkYAML/OrderedMap.hpp:121-122 | after a key that was absent is appended, finding it gives the old size, the position of the new entry |
| OrderedMap.FindSameKeys | include/fkYAML/OrderedMap.hpp:176-186 | the search compares keys only: two maps with the same keys in the same order find every key at the same position, whatever their values |
| OrderedMap.Emplace | include/fkYAML/OrderedMap.hpp:112-123 | an existing key returns its entry, reports no insertion and leaves the map unchanged; a new key is appended with its value at the end; key uniqueness is preserved |
| OrderedMap.Subscript | include/fkYAML/OrderedMap.hpp:97-100 | a present key yields its value without changing the map; an absent key is inserted with the default value, which is returned; uniqueness is preserved |
| OrderedMap.At | include/fkYAML/OrderedMap.hpp:134-144 | succeeds exactly when the key is present, returning the value of the matching entry; an absent key is a "key not found" error |
| OrderedMap.ToMapKeys | include/fkYAML/OrderedMap.hpp:176-186 | the keys of the list are exactly the keys of the map it denotes |
| OrderedMap.ToMapLookup | include/fkYAML/OrderedMap.hpp:134-144 | with unique keys, every entry's value is what the denoted map gives for its key |
| OrderedMap.AtMatchesMap | include/fkYAML/OrderedMap.hpp:155-165 | with unique keys, `at` agrees with lookup in the denoted map, both in whether it fails and in the value |
| OrderedMap.EmplaceMatchesMap | include/fkYAML/OrderedMap.hpp:112-123 | on the denoted map, `emplace` adds the key with its value only when the key is absent, and otherwise changes nothing |
| YamlNode.ReplaceChild | include/fkYAML/detail/input/deserializer.hpp:440-441 | writing a child through a step makes that step lead to the new child. The parent keeps its kind, anchor and version, its size and, for a mapping, the key at every position, and every other step leads to the same child as before |
| YamlNode.Update | include/fkYAML/detail/input/deserializer.hpp:440-441 | writing through a path (the model of assigning through `m_current_node`) makes the path lead to the written node and keeps the kind, anchor and version of the root |
| YamlNode.UpdateFrame | include/fkYAML/detail/input/deserializer.hpp:440-441 | the write touches nothing off its path: every path that parts from the written one leads to the same node before and after |
| YamlNode.GetAppend | include/fkYAML/detail/input/deserializer.hpp:405-417 | following a path extended by one step is following the path and then the step |
| YamlNode.UpdateLast | include/fkYAML/detail/input/deserializer.hpp:440-441 | writing into a child of the node at a path changes the node at that path only in that child |
| YamlNode.UpdateKeepsPrefix | include/fkYAML/detail/input/deserializer.hpp:440-441 | a write through a path keeps every shorter prefix of the path valid and keeps the kinds of the nodes along it, so the pointers on the node stack stay meaningful |
| YamlNode.UpdateWellFormed | include/fkYAML/detail/input/deserializer.hpp:405-417 | writing a well-formed node into a tree whose mappings all have unique keys keeps every mapping's keys unique |
| YamlNode.GetWellFormed | include/fkYAML/detail/input/deserializer.hpp:405-417 | every node reached from a well-formed root is well formed |
| FromNode.ToSequence | include/fkYAML/from_node.hpp:52-59 | succeeds exactly on sequence nodes, yielding their items unchanged; any other kind is a type-mismatch error |
| FromNode.EmplaceAll | include/fkYAML/from_node.hpp:75-79 | emplacing every entry keeps the target's entries as a prefix, makes every source key present, adds only source entries and preserves uniqueness |
| FromNode.ToMapping | include/fkYAML/from_node.hpp:69-80 | succeeds exactly on mapping nodes and then emplaces every entry into the target; any other kind is a type-mismatch error |
| FromNode.EmplaceAllIsUnion | include/fkYAML/from_node.hpp:75-79 | on the denoted maps, extraction is the union in which keys already in the target keep their values |
| FromNode.ToNull | include/fkYAML/from_node.hpp:90-98 | succeeds exactly on null nodes, otherwise a type-mismatch error |
| FromNode.ToBoolean | include/fkYAML/from_node.hpp:108-115 | succeeds exactly on boolean nodes, yielding their value; otherwise a type-mismatch error |
| FromNode.ToInteger | include/fkYAML/from_node.hpp:125-132 | succeeds exactly on integer nodes, yielding their value; otherwise a type-mismatch error |
| FromNode.ToStringValue | include/fkYAML/from_node.hpp:228-235 | succeeds exactly on string nodes, yielding their value; otherwise a type-mismatch error |
| FromNode.CastToInt64 | include/fkYAML/from_node.hpp:157 | the cast to the 64-bit signed node integer keeps values that fit and otherwise wraps modulo 2^64 |
| FromNode.ToNarrowIntegerAsWritten | include/fkYAML/from_node.hpp:148-167 | the narrowing as written: only integer nodes pass, and a successful result is the node's value |
| FromNode.UnsignedSixtyFourAlwaysOverflows | include/fkYAML/from_node.hpp:161-164 | as written, narrowing any non-negative value to a 64-bit unsigned type reports overflow |
| FromNode.ToNarrowInteger | include/fkYAML/from_node.hpp:148-167 | underflow exactly below the target minimum, overflow exactly above the target maximum, and otherwise the same numeric value |
| FromNode.NarrowingAgreesBelowSixtyFourUnsigned | include/fkYAML/from_node.hpp:148-167 | for every target other than the 64-bit unsigned one, the code as written computes exactly the intended narrowing |
| FromNode.LimitsFitInt64 | include/fkYAML/from_node.hpp:157-164 | the limits of every target but the 64-bit unsigned one fit the node's 64-bit signed integer, so their casts are exact |
| ScanText.SkipWhile | include/fkYAML/detail/input/lexical_analyzer.hpp:1026-1039 | the cursor passes exactly the maximal run of the given characters |
| ScanText.SkipUntilLineEnd | include/fkYAML/detail/input/lexical_analyzer.hpp:1042-1053 | the cursor ends just past the first line feed, or at the end, with no line feed skipped before it |
| ScanText.CheckScalarContent | include/fkYAML/detail/input/lexical_analyzer.hpp:884-961 | a scalar passes exactly when it holds no control character in 0x01-0x08, 0x0B, 0x0C or 0x0E-0x1F; a failure names such a character of the scalar |
| PlainRange.PlainEnd | include/fkYAML/detail/input/lexical_analyzer.hpp:711-796 | a plain scalar ends at the first position where one of the scalar-ending rules holds, or at the end of the buffer |
| PlainRange.PlainScalarShape | include/fkYAML/detail/input/lexical_analyzer.hpp:711-796 | a plain scalar never holds a line feed or a `: `, and inside a flow context never holds a flow indicator |
| PlainRange.PlainNonEmpty | include/fkYAML/detail/input/lexical_analyzer.hpp:711-796 | a plain scalar starting at a character that does not end it is not empty |
| QuotedRange.SingleQuoteClose | include/fkYAML/detail/input/lexical_analyzer.hpp:645-666 | the closing quote found ends a body of doubled quotes and other characters; when none is found, no position closes such a body |
| QuotedRange.BackslashRunMeaning | include/fkYAML/detail/input/lexical_analyzer.hpp:683-690 | the count is the length of the whole run of backslashes just before the quote: each counted character is a backslash, and the character before the run is not one, unless the run reaches the lower bound of the count |
| QuotedRange.DoubleQuoteCloseMeaning | include/fkYAML/detail/input/lexical_analyzer.hpp:670-707 | the corrected scan returns the first `"` preceded by an even run of backslashes, and reports none exactly when no such quote exists |
| QuotedRange.DoubleQuoteCloseAsWritten | include/fkYAML/detail/input/lexical_analyzer.hpp:670-707 | the scan as written returns a position in the buffer when it finds a closing quote |
| QuotedRange.EscapedBackslashUnclosedAsWritten | include/fkYAML/detail/input/lexical_analyzer.hpp:684-691 | on `"\\"` the scan as written finds no closing quote, while the escape rule closes the scalar at its last character |
| RangeLexer.DoubleQuotedAgrees | include/fkYAML/detail/input/lexical_analyzer.hpp:200-205 | the double-quoted case as written and the corrected case give the same result on every buffer whose scalar does not start with a backslash |
| RangeLexer.EscapedBackslashToken | include/fkYAML/detail/input/lexical_analyzer.hpp:200-205 | on `"\\"` the scanner gives a double-quoted scalar over the two backslashes with the cursor after the closing quote, while the case as written reports the scalar unterminated |
| QuotedRange.DoubleQuoteCloseAgrees | include/fkYAML/detail/input/lexical_analyzer.hpp:670-707 | when the scalar does not start with a backslash, the scan as written agrees with the corrected one |
| BlockScalar.HeaderOfMeaning | include/fkYAML/detail/input/lexical_analyzer.hpp:967-1018 | a header is accepted exactly when it has at most one chomping indicator, at most one indentation digit from 1 to 9 and nothing else; chomping and indentation are read from those characters, with clipping and 0 as defaults |
| BlockScalar.ConvertHeaderMeaning | include/fkYAML/detail/input/lexical_analyzer.hpp:967-1018 | the text from the first ` #` on is ignored, and the rest must be a valid header |
| BlockScalar.CommentStart | include/fkYAML/detail/input/lexical_analyzer.hpp:968-969 | the position found is the first ` #` of the line, or the line's end when there is none |
| BlockScalar.BlockEndFrom | include/fkYAML/detail/input/lexical_analyzer.hpp:802-880 | the body ends at the first line feed followed by a line indented less than the body, or at the end of the buffer |
| BlockScalar.BodyEnd | include/fkYAML/detail/input/lexical_analyzer.hpp:802-880 | the body's end is just past a line feed that starts a less indented line, and no earlier line is less indented |
| BlockScalar.ScanBlockBodyMeaning | include/fkYAML/detail/input/lexical_analyzer.hpp:802-880 | for every column `c` of the first non-blank character (the count of characters before it on its line, see `BlockScalar.Column`), the body's indentation is `c` unless the header gives one, and with a header indentation the scan fails exactly when `c` is smaller; an all-blank rest is an empty body |
| BlockScalar.ScanBlockScalarMeaning | include/fkYAML/detail/input/lexical_analyzer.hpp:802-880 | a block scalar needs a line feed after its header; its header is the converted rest of the line, and its body starts on the next line and ends where the body scan says |
| AnchorTag.ExtractAnchorName | include/fkYAML/detail/input/lexical_analyzer.hpp:499-529 | the name is the maximal non-empty run after the indicator that avoids blanks, line feeds and flow indicators; an empty name is an error |
| AnchorTag.TagBangs | include/fkYAML/detail/input/lexical_analyzer.hpp:533-641 | a tag may hold at most one further `!` (none when not allowed), and it is named exactly when it is a named handle or holds that `!` |
| AnchorTag.CheckShorthandSuffix | include/fkYAML/detail/input/lexical_analyzer.hpp:533-641 | a tag suffix is accepted exactly when it is a valid URI that holds no flow indicator |
| AnchorTag.ExtractTagName | include/fkYAML/detail/input/lexical_analyzer.hpp:533-641 | a tag runs from its `!` to the first blank, line feed or end of the buffer after the character that follows the `!` (a tab right after the `!` is passed over) |
| AnchorTag.VerbatimTagMeaning | include/fkYAML/detail/input/lexical_analyzer.hpp:533-641 | a verbatim tag `!<...>` is accepted exactly when it ends with `>`, holds no further `!` and its URI is not empty and valid; it covers the whole word |
| AnchorTag.ShorthandTagMeaning | include/fkYAML/detail/input/lexical_analyzer.hpp:533-641 | a shorthand tag is accepted exactly when it holds at most two `!`, a named handle has a suffix, and the suffix after the last `!` is a valid URI without flow indicators; it covers the whole word |
| Directives.ScanYamlVersion | include/fkYAML/detail/input/lexical_analyzer.hpp:471-495 | the `%YAML` version is accepted exactly when the next word is `1.1` or `1.2`, and is stored as that word |
| Directives.TagHandleEnd | include/fkYAML/detail/input/lexical_analyzer.hpp:360-466 | a tag handle read is `!`, `!!` or `!name!` with a name of letters, digits and hyphens, followed by a blank |
| Directives.TagHandleComplete | include/fkYAML/detail/input/lexical_analyzer.hpp:360-466 | conversely every well-formed handle followed by a blank is read in full |
| Directives.TagPrefixEnd | include/fkYAML/detail/input/lexical_analyzer.hpp:360-466 | a tag prefix is accepted exactly when it does not start with a flow indicator and is a valid URI up to the next blank or line feed |
| Directives.TagDirectiveMeaning | include/fkYAML/detail/input/lexical_analyzer.hpp:360-466 | a stored `%TAG` directive has a well-formed handle, then blanks, then a prefix that is a valid URI ending the word |
| Directives.ScanDirectiveMeaning | include/fkYAML/detail/input/lexical_analyzer.hpp:315-356 | an unknown name, or a line feed right after the name, gives an invalid directive and skips the line; `%YAML` and `%TAG` need a blank after them; `%YAML` succeeds exactly on a supported version |
| RangeLexer.SetContextState | include/fkYAML/detail/input/lexical_analyzer.hpp:289-294 | sets the flow-context bit as asked and keeps the directive bit and every other field |
| RangeLexer.SetDocumentState | include/fkYAML/detail/input/lexical_analyzer.hpp:298-303 | sets the directive bit as asked and keeps the flow-context bit and every other field |
| RangeLexer.FlowBitReadsBack | include/fkYAML/detail/input/lexical_analyzer.hpp:289-294 | after the flow bit is set or cleared, testing it gives back what was set |
| RangeLexer.DirectiveBitReadsBack | include/fkYAML/detail/input/lexical_analyzer.hpp:298-303 | after the directive bit is set or cleared, testing it gives back what was set |
| RangeLexer.FlowUpdateKeepsDirective | include/fkYAML/detail/input/lexical_analyzer.hpp:289-294 | changing the flow bit never changes the directive bit |
| RangeLexer.DirectiveUpdateKeepsFlow | include/fkYAML/detail/input/lexical_analyzer.hpp:298-303 | changing the directive bit never changes the flow bit |
| RangeLexer.ScanPlain | include/fkYAML/detail/input/lexical_analyzer.hpp:244-249 | a plain scalar token covers exactly the plain range and succeeds exactly when that range holds no forbidden control character |
| RangeLexer.ScanAt | include/fkYAML/detail/input/lexical_analyzer.hpp:74-243 | every token but the end moves the cursor forward within the buffer and leaves the state bits alone (the double-quoted case is the corrected one, see Findings) |
| RangeLexer.TokenStart | include/fkYAML/detail/input/lexical_analyzer.hpp:61 | a token starts after the maximal run of blanks and line breaks |
| RangeLexer.GetNextToken | include/fkYAML/detail/input/lexical_analyzer.hpp:60-249 | when only blanks and line breaks remain, the result is the end-of-buffer token with the cursor at the end; an end-of-buffer token only ever comes with the cursor at the end (a trailing comment also ends there); every other token moves the cursor forward |
| RangeLexer.ColonMeaning | include/fkYAML/detail/input/lexical_analyzer.hpp:87-114 | `:` is a key separator exactly when it ends the buffer or is followed by a blank or line feed, or by a flow indicator in a flow context; otherwise it starts a plain scalar |
| RangeLexer.PercentMeaning | include/fkYAML/detail/input/lexical_analyzer.hpp:146-153 | `%` starts a directive only in the directive section, and otherwise starts a plain scalar |
| RangeLexer.AnchorMeaning | include/fkYAML/detail/input/lexical_analyzer.hpp:119-138 | `&` and `*` give an anchor or alias exactly when the name is not empty, and the token holds that name |
| RangeLexer.DashMeaning | include/fkYAML/detail/input/lexical_analyzer.hpp:154-179 | a `-` that ends the buffer is the read past the end; `-` before a blank or line break is a block sequence entry with the cursor two characters on; `---` ends the directives with the cursor three characters on; any other `-` starts a plain scalar |
| RangeLexer.DotMeaning | include/fkYAML/detail/input/lexical_analyzer.hpp:212-223 | `...` ends the document with the cursor three characters on; any other `.` starts a plain scalar |
| RangeLexer.Tokenize | include/fkYAML/detail/input/lexical_analyzer.hpp:60-249 | a driver loop with no counterpart in the C++ code, standing for a caller that asks for tokens until the end: the calls terminate, the token list ends with exactly one end-of-buffer token, and its length is at most one more than the characters left |
| ValueLexer.SkipWhiteSpaces | include/fkYAML/LexicalAnalyzer.hpp:1039-1055 | the cursor passes exactly the maximal run of spaces, tabs and line breaks |
| ValueLexer.CommentEnd | include/fkYAML/LexicalAnalyzer.hpp:459-482 | a comment runs to the first line break or end of input after its `#`, except that two carriage returns in a row leave the cursor on the second |
| ValueLexer.GetNull | include/fkYAML/LexicalAnalyzer.hpp:259-272 | accepts exactly `null`, `Null`, `NULL` and `~`; an empty buffer and any other text are distinct errors |
| ValueLexer.GetBoolean | include/fkYAML/LexicalAnalyzer.hpp:280-298 | accepts exactly the three spellings of true and of false, and yields true exactly for a true spelling |
| ValueLexer.ConvertHexCharToByte | include/fkYAML/LexicalAnalyzer.hpp:431-452 | accepts exactly the hexadecimal digits of either case, giving a value below 16 |
| ValueLexer.HexDigitRoundTrip | include/fkYAML/LexicalAnalyzer.hpp:431-452 | every digit value written in either case converts back to itself, and only those two characters convert to it |
| ValueLexer.ScanDecimalNumber | include/fkYAML/LexicalAnalyzer.hpp:636-663 | the number text is the buffered prefix plus the characters read, and it is a float exactly when it holds a point or an exponent; a second point is always MultipleDecimalPoints |
| ValueLexer.AfterDecimalPoint | include/fkYAML/LexicalAnalyzer.hpp:580-592 | after a point the number is a float, and whenever the character right after the point is not a digit the scan fails with NoDigitAfterDecimalPoint |
| ValueLexer.AfterExponent | include/fkYAML/LexicalAnalyzer.hpp:599-613 | after an exponent mark the number is a float made of the characters read |
| ValueLexer.AfterSign | include/fkYAML/LexicalAnalyzer.hpp:620-629 | whenever the character right after an exponent sign is not a digit the scan fails with NoDigitAfterExponentSign |
| ValueLexer.ScanOctalNumber | include/fkYAML/LexicalAnalyzer.hpp:671-680 | reads the maximal run of octal digits as an unsigned integer |
| ValueLexer.ScanHexadecimalNumber | include/fkYAML/LexicalAnalyzer.hpp:688-697 | reads the maximal run of hexadecimal digits as an unsigned integer |
| ValueLexer.ScanNegativeNumber | include/fkYAML/LexicalAnalyzer.hpp:522-547 | a negative number's text is the characters read from the minus sign; a minus followed by neither a digit nor a `.inf` spelling is always InvalidNegativeNumber |
| ValueLexer.ScanAfterZero | include/fkYAML/LexicalAnalyzer.hpp:554-573 | after a leading zero the text is what was read, except that the `o` of an octal prefix is dropped |
| ValueLexer.ScanNumber | include/fkYAML/LexicalAnalyzer.hpp:490-515 | a number's text is what was read (without the `o` of an octal prefix), and a number must start with a minus sign or a digit |
| ValueLexer.NumberKindMeaning | include/fkYAML/LexicalAnalyzer.hpp:490-573 | the kind agrees with the text: hexadecimal and octal are unsigned, a point or exponent makes a float, otherwise a leading minus makes a signed integer and a digit run an unsigned one |
| ValueLexer.OctalLiteralValue | include/fkYAML/LexicalAnalyzer.hpp:554-573 | `0o` and a digit run buffer as `0` and the digits, and their radix value is the octal value of the digits |
| ValueLexer.TestedSignedInteger | test/unit_test/LexicalAnalyzerTest.cpp:7-47 | `-1234` is a signed integer whose value buffer is the whole input |
| ValueLexer.TestedUnsignedInteger | test/unit_test/LexicalAnalyzerTest.cpp:49-88 | `5678` is an unsigned integer whose value buffer is the whole input |
| ValueLexer.TestedOctal | test/unit_test/LexicalAnalyzerTest.cpp:90-129 | `0o437` buffers as `0437` and reads back as 287 |
| ValueLexer.TestedHexadecimal | test/unit_test/LexicalAnalyzerTest.cpp:131-170 | `0xA04F` is an unsigned integer that reads back as 41039 |
| ValueLexer.TestedSignedFloat | test/unit_test/LexicalAnalyzerTest.cpp:172-211 | `-1.234` is a float read in full |
| ValueLexer.TestedUnsignedFloat | test/unit_test/LexicalAnalyzerTest.cpp:213-252 | `567.8` is a float read in full |
| ValueLexer.TestedExponent | test/unit_test/LexicalAnalyzerTest.cpp:254-293 | `9.8e-3` is a float read in full |
| ValueLexer.TestedNegativeInfinity | test/unit_test/LexicalAnalyzerTest.cpp:418-457 | `-.inf` is a float read in full |
| ValueLexer.RejectedNumbers | include/fkYAML/LexicalAnalyzer.hpp:522-663 | a second point, a point or exponent sign without a digit after it, a minus followed by neither a digit nor `.inf`, and a leading plus are each rejected with their own error |
| ValueLexer.EscapeChar | include/fkYAML/LexicalAnalyzer.hpp:862-900 | only printable letters form escapes |
| ValueLexer.EscapeTableInverse | include/fkYAML/LexicalAnalyzer.hpp:862-900 | the escape table is one-to-one: a letter stands for a character exactly when that character is written with that letter |
| ValueLexer.HexEscape | include/fkYAML/LexicalAnalyzer.hpp:901-913 | a `\x` escape always fails: with two hex digits as an unsupported escape, otherwise as a non-hex character |
| ValueLexer.TrimTrailingSpaces | include/fkYAML/LexicalAnalyzer.hpp:785-819 | removes exactly the trailing spaces, leaving a non-empty prefix that does not end with a space; a buffer of only spaces is an error |
| ValueLexer.ScanStringFrom | include/fkYAML/LexicalAnalyzer.hpp:713-994 | a quoted scan succeeds only on its closing quote, so an unterminated quote is an error |
| ValueLexer.ScanString | include/fkYAML/LexicalAnalyzer.hpp:705-996 | a quoted string leaves the cursor on its closing quote |
| ValueLexer.UnquotedScan | include/fkYAML/LexicalAnalyzer.hpp:751-848 | an unquoted string is exactly the characters before its first stop (`,`, a line break, the end, `: `, `]` or `}`), with trailing spaces trimmed before `]` and `}` |
| ValueLexer.UnquotedRejects | include/fkYAML/LexicalAnalyzer.hpp:917-994 | a backslash, a quote in the middle, a control character other than tab, or a byte outside 0x20-0x7E before the stop is an error |
| ValueLexer.SingleQuotedRoundTrip | include/fkYAML/LexicalAnalyzer.hpp:733-749 | quoting a text with every `'` doubled and scanning it back gives the text, with the cursor on the closing quote |
| ValueLexer.DoubleQuotedRoundTrip | include/fkYAML/LexicalAnalyzer.hpp:713-731 | an escape-free double-quoted text scans back to itself, with the cursor on the closing quote |
| ValueLexer.EscapeAppendsLetter | include/fkYAML/LexicalAnalyzer.hpp:917-922 | an escape appends the character it stands for and then its own letter again |
| ValueLexer.EscapedNewlineExample | include/fkYAML/LexicalAnalyzer.hpp:874-876 | so `"\n"` scans to a line feed followed by `n` |
| ValueLexer.HexEscapeRejected | include/fkYAML/LexicalAnalyzer.hpp:901-913 | any string holding a `\x` escape is an error |
| ValueLexer.QuotedLineBreakExample | include/fkYAML/LexicalAnalyzer.hpp:823-833 | inside quotes a line break, the blanks after it and the first character after them are all dropped |
| ValueLexer.GetNextToken | include/fkYAML/LexicalAnalyzer.hpp:106-252 | an empty buffer is an error, and the cursor never moves backwards or past the end |
| ValueLexer.EndOfBufferMeaning | include/fkYAML/LexicalAnalyzer.hpp:120-126 | the end of the buffer is reported exactly when only blanks remain before the end or a 0xFF byte, and it is then reported again on every later call |
| ValueLexer.ScalarTokenOrigin | include/fkYAML/LexicalAnalyzer.hpp:170-248 | a null or boolean token comes only from `~` or from a reserved word whose initial selects the case |
| ValueLexer.ScalarTokensConvert | include/fkYAML/LexicalAnalyzer.hpp:259-298 | the text of every null token passes GetNull, and that of every boolean passes GetBoolean with the truth given by its initial |
| ValueLexer.NullWordToken | include/fkYAML/LexicalAnalyzer.hpp:216-231 | a null spelling is a null token, whatever follows it |
| ValueLexer.TrueWordToken | include/fkYAML/LexicalAnalyzer.hpp:233-247 | a true spelling is a boolean token, whatever follows it |
| ValueLexer.FalseWordToken | include/fkYAML/LexicalAnalyzer.hpp:200-214 | a false spelling is a boolean token, whatever follows it |
| ValueLexer.InfWordToken | include/fkYAML/LexicalAnalyzer.hpp:175-198 | a `.inf` spelling is a float token |
| ValueLexer.NanWordToken | include/fkYAML/LexicalAnalyzer.hpp:175-198 | a `.nan` spelling is a float token |
| ValueLexer.ColonNeedsSpace | include/fkYAML/LexicalAnalyzer.hpp:127-132 | `:` is a key separator exactly when a space follows it, and is an error otherwise |
| ValueLexer.TokensThatDoNotAdvance | include/fkYAML/LexicalAnalyzer.hpp:136-148 | anchor, alias, directive, sequence-entry and `~` tokens leave the cursor in place, so the next call reports them again |
| Deserializer.SetCurrent | include/fkYAML/detail/input/deserializer.hpp:440 | overwriting the current node changes only the tree, and the current path then leads to the new node |
| Deserializer.Pop | include/fkYAML/detail/input/deserializer.hpp:161-164 | popping succeeds exactly when the node stack is not empty, makes its top the current node and keeps the indent stack |
| Deserializer.UpdateYamlVersionFrom | include/fkYAML/detail/input/deserializer.hpp:462-470 | the version is 1.1 exactly for the text `1.1`, and 1.2 for anything else |
| Deserializer.Attach | include/fkYAML/detail/input/deserializer.hpp:423-448 | an assigned value carries the current version, and the pending anchor name when one is pending |
| Deserializer.AssignNodeValue | include/fkYAML/detail/input/deserializer.hpp:423-451 | a value is appended to a current sequence, which stays current; a value slot is overwritten and the parent becomes current, which needs a non-empty stack; a pending anchor is consumed and stored |
| Deserializer.PopNShape | include/fkYAML/detail/input/deserializer.hpp:383-389 | popping a count of entries takes that many innermost entries off both stacks together, leaves the tree untouched, and makes the outermost popped node current |
| Deserializer.PopToIndent | include/fkYAML/detail/input/deserializer.hpp:374-391 | unwinding keeps the state consistent, and its only errors are an invalid indentation and an empty stack |
| Deserializer.PopToIndentMeaning | include/fkYAML/detail/input/deserializer.hpp:374-391 | a key at or past the innermost indentation pops nothing; a key indented less must equal an indentation on the stack, and then the unwinding succeeds exactly when the node stack holds as many entries as lie above the indentation's last occurrence; exactly those entries are popped from both stacks |
| Deserializer.InsertKey | include/fkYAML/detail/input/deserializer.hpp:400-418 | the current node must be a mapping without the key; the key is appended with a null value, the mapping is pushed, the slot becomes current, and only a mapping's first key pushes its indentation |
| Deserializer.AddNewKey | include/fkYAML/detail/input/deserializer.hpp:372-419 | a new key leaves a null slot current, reached through that key |
| Deserializer.KeyInSequenceOpensMapping | include/fkYAML/detail/input/deserializer.hpp:393-398 | a key inside a sequence appends a new mapping to it and enters the key's slot, pushing both the sequence and the mapping |
| Deserializer.ScalarStep | include/fkYAML/detail/input/deserializer.hpp:193-345 | in a mapping a scalar is a new key; in a sequence it is a key exactly when the next token is a key separator or a block mapping prefix, and is appended otherwise; elsewhere it is assigned |
| Deserializer.SequenceBlockStep | include/fkYAML/detail/input/deserializer.hpp:117-156 | `- ` under a sequence with no items records the indentation; under a non-empty sequence it unwinds to the sequence at the token's indentation; under a non-sequence it is an error when the node stack is empty, and otherwise it unwinds the same way and appends and enters a new mapping in the sequence found |
| Deserializer.CollectionStep | include/fkYAML/detail/input/deserializer.hpp:157-192 | `}` outside a mapping is an error, `]` and `}` pop to the parent, and the opening tokens replace the current node by a new empty collection, a sequence for `[` or for a block mapping prefix followed by `- ` |
| Deserializer.VersionStep | include/fkYAML/detail/input/deserializer.hpp:106-111 | a version directive is accepted only while the root is current; it sets the version and stamps it on the root |
| Deserializer.AliasStep | include/fkYAML/detail/input/deserializer.hpp:93-103 | an alias to a name not yet anchored is an error; otherwise the value assigned is an alias of the stored copy |
| Deserializer.Step | include/fkYAML/detail/input/deserializer.hpp:76-353 | a `:` needs a non-empty node stack and changes nothing; an anchor becomes pending; separators, comments and directives other than `%YAML` change nothing; tokens the loop does not handle are errors |
| Deserializer.Deserialize | include/fkYAML/detail/input/deserializer.hpp:63-367 | a successful parse returns a well-formed root and a parser whose stacks, pending anchor and anchor table are clear, so a second call starts fresh; it fails exactly when the token loop fails, returns the root that loop built, and keeps the version |
| Deserializer.MappingEntry | include/fkYAML/detail/input/deserializer.hpp:193-345 | the three tokens `key`, `:`, `value` append the entry with the value stamped and anchored, and leave the mapping current with the stacks as they were, except that a first key records its indentation |
| Deserializer.MappingEntryRun | include/fkYAML/detail/input/deserializer.hpp:72-359 | the loop passes over such an entry as one move |
| Deserializer.EmptyStream | include/fkYAML/detail/input/deserializer.hpp:67-68 | without tokens the result is an empty mapping and a fresh parser stays fresh |
| Deserializer.VersionDirectiveExample | include/fkYAML/detail/input/deserializer.hpp:106-111 | `%YAML 1.1`, `---`, `foo: one` gives a root and a value both stamped 1.1, and the parser keeps version 1.1 |

## Left out

- Floating-point conversion (`GetFloatNumber`, `strtod`, the `.inf`/`.nan` values) and the float `from_node` overload: float tokens stay as their text.
- `GetSignedInt` and `GetUnsignedInt` (`strtoll`/`strtoull` with `errno`): these depend on the C library. `RadixValue` is an idealised radix conversion without the 64-bit range check.
- `uri_encoding::validate`, `position_tracker`, `str_view` and the exception classes are not part of this model. URI validity is a parameter. Error positions and message texts are not modelled: an error is a reason code, plus a line and an indentation in the deserializer.
- `Iterator.hpp`, `type_traits.hpp`, `TypeTraits.hpp` and `node_value_converter.hpp` have no runtime behaviour of their own.
- Deserializer:
  - Raw pointers become paths from the root. The pointer invalidation that a real `std::vector` reallocation could cause is not modelled.
  - The state after a failed call is not modelled: a call requires a parser whose stacks, pending anchor and anchor table are clear. This holds before the first call and after every successful one.
  - Integer and float conversion happen in the lexer, so a token carries its converted value.
- Deserializer behaviours the C++ code has and the model keeps:
  - the YAML version and the anchor name survive from one call to the next (the C++ code never resets them);
  - `%TAG` directives are ignored;
  - a second anchor before a value overwrites the first;
  - a failed `FK_YAML_ASSERT` is the error `AssertionViolated`;
  - pops without a guard are the error `StackUnderflow`, not preconditions.
- Old value lexer quirks the model keeps:
  - `+` at a token start always fails;
  - `~`, `&`, `*`, `%` and `- ` are reported without moving the cursor;
  - a quoted string leaves the cursor on its closing quote;
  - a `'` inside double quotes is an error;
  - after an escape, the decoded character is appended and then the escape letter itself (`"\n"` gives a line feed followed by `n`);
  - `\x` always fails;
  - the first character after a line break inside quotes is dropped;
  - a byte 0xFF counts as the end of the input (signed `char`).
- Range scanner:
  - the `-` case reads past a `-` that ends the buffer; this is the error `ReadPastEnd`;
  - a tag `!<` at the end of the buffer likewise reads past the end and is an error;
  - the comment case's recursion is bounded by the cursor, which moves forward;
  - the directive tokens carry no text (the C++ code leaves the token's view empty), and the lexer keeps the version, handle and prefix views instead.
- RangeLexer.ScanAt / RangeLexer.GetNextToken: these use the corrected double-quoted scan, not the one as written. They accept a scalar such as `"\\"` whose first character is a backslash, which the C++ code reports as unterminated. The case as written is `RangeLexer.ScanDoubleQuotedAsWritten`. `RangeLexer.DoubleQuotedAgrees` shows that the two differ only on such scalars, and `RangeLexer.EscapedBackslashToken` shows the difference.
- RangeLexer.ScanDoubleQuotedAsWritten: its contract states only where the cursor lands. Its meaning is stated by `RangeLexer.DoubleQuotedAgrees` and `RangeLexer.EscapedBackslashToken`, because it is the faulty version.
- RangeLexer.GetNextToken: the state bits are never changed by the scanner itself. The callers that flip them are outside the modelled core.
- QuotedRange.DoubleQuoteCloseAsWritten: its contract states only where the result lies. Its meaning is stated by `DoubleQuoteCloseAgrees` and by the counterexample, because it is the faulty version.
- FromNode.ToNarrowIntegerAsWritten: its contract states only the kind check and the value. The faulty bounds are exhibited by `UnsignedSixtyFourAlwaysOverflows` and, for the other targets, by `NarrowingAgreesBelowSixtyFourUnsigned`.
- ValueLexer.ScanStringFrom and ValueLexer.ScanString: their contracts state the cursor's final position. The contents are stated by the round-trip, unquoted-scan and escape lemmas for the inputs those lemmas describe. A general statement over arbitrary escape mixes is not proved.

## Findings

| source | as written | input that shows it | evidently intended | confidence | as-written member | corrected member |
|---|---|---|---|---|---|---|
| include/fkYAML/detail/input/lexical_analyzer.hpp:684-691 | the backslash count before a `"` stops when its pointer reaches the first character of the scalar, without examining that character | the double-quoted scalar `"\\"` (one escaped backslash): one backslash is counted, so the quote counts as escaped and the scalar is reported unterminated | count every backslash of the run, down to the first character of the scalar, so `"\\"` closes at its last quote | not executed | QuotedRange.EscapedBackslashUnclosedAsWritten | QuotedRange.DoubleQuoteCloseMeaning |
| include/fkYAML/from_node.hpp:161-164 | the target's maximum is cast to the 64-bit signed node integer before the comparison | narrowing any non-negative value to `uint64_t`: the maximum 2^64-1 casts to -1, so every such value reports overflow | compare against the target's true range, so every non-negative value converts | not executed | FromNode.UnsignedSixtyFourAlwaysOverflows | FromNode.ToNarrowInteger |
