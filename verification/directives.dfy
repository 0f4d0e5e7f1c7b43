/** Directives in lexical_analyzer.hpp (scan_directive, scan_tag_directive,
    scan_yaml_version_directive): `%YAML <version>` and `%TAG <handle>
    <prefix>` as in section 6.8 of the YAML 1.2.2 specification. The token
    itself carries no text; what a directive holds is kept in the lexer. */
module Directives {
  import opened Wrappers
  import opened ScanText

  /** What a directive line yielded: the version or the handle and prefix
      views it stored, or an unknown or malformed directive whose line was
      skipped. */
  datatype Directive =
    | YamlVersionDirective(version: Range)
    | TagDirective(handle: Range, prefix: Range)
    | InvalidDirective

  /** A directive and the cursor after it. */
  datatype DirectiveScan = DirectiveScan(directive: Directive, next: nat)

  /** The two versions the scanner accepts. */
  predicate SupportedVersion(v: string) {
    v == "1.1" || v == "1.2"
  }

  /** scan_yaml_version_directive from `c`: the version is the word up to
      the next blank or line break. */
  function ScanYamlVersion(buf: string, c: nat): (r: Result<DirectiveScan, ScanError>)
    requires c <= |buf|
    ensures var e := FindFirstOf(buf, c, WhiteSpacesAndNewlines);
      && (r.Ok? <==> SupportedVersion(buf[c..e]))
      && (r.Ok? ==> r.value == DirectiveScan(YamlVersionDirective(Range(c, e)), e))
      && (r.Err? ==> r.error == UnsupportedYamlVersion)
  {
    var e := FindFirstOf(buf, c, WhiteSpacesAndNewlines);
    if buf[c..e] != "1.1" && buf[c..e] != "1.2" then Err(UnsupportedYamlVersion)
    else Ok(DirectiveScan(YamlVersionDirective(Range(c, e)), e))
  }

  /** A well-formed tag handle: `!`, `!!`, or `!name!` where the name is
      a non-empty run of ASCII letters, digits and hyphens. */
  predicate TagHandle(h: string) {
    || h == "!"
    || h == "!!"
    || (3 <= |h| && h[0] == '!' && h[|h| - 1] == '!'
        && forall k :: 1 <= k < |h| - 1 ==> IsAlnum(h[k]) || h[k] == '-')
  }

  /** The characters from `c` up to `e` form a tag handle. */
  predicate HandleBetween(buf: string, c: nat, e: nat)
    requires c <= e <= |buf|
  {
    TagHandle(buf[c..e])
  }

  /** The do-while loop of scan_tag_directive over a named handle, from
      position `p` inside it: the position just after the closing `!`. */
  function NamedHandleEnd(buf: string, p: nat): (r: Result<nat, ScanError>)
    requires p < |buf|
    ensures r.Ok? ==> p < r.value < |buf| && buf[r.value - 1] == '!' && buf[r.value] in WhiteSpaces
    ensures r.Ok? ==> forall k :: p <= k < r.value - 1 ==> IsAlnum(buf[k]) || buf[k] == '-'
    ensures r.Err? ==> r.error == InvalidTagHandle || r.error == InvalidTagDirective
    decreases |buf| - p
  {
    var ch := buf[p];
    if ch == ' ' || ch == '\t' then Err(InvalidTagHandle)
    else if ch == '!' then
      if p + 1 == |buf| then Err(InvalidTagDirective)
      else if buf[p + 1] != ' ' && buf[p + 1] != '\t' then Err(InvalidTagHandle)
      else Ok(p + 1)
    else if ch != '-' && !IsAlnum(ch) then Err(InvalidTagHandle)
    else if p + 1 == |buf| then Err(InvalidTagDirective)
    else NamedHandleEnd(buf, p + 1)
  }

  /** The handle part of scan_tag_directive from `c`: the position just
      after the handle, which is followed by a blank. */
  function TagHandleEnd(buf: string, c: nat): (r: Result<nat, ScanError>)
    requires c <= |buf|
    ensures r.Ok? ==> c < r.value < |buf| && buf[r.value] in WhiteSpaces && HandleBetween(buf, c, r.value)
  {
    if c == |buf| then Err(ReadPastEnd)
    else if buf[c] != '!' then Err(InvalidTagHandle)
    else if c + 1 == |buf| then Err(InvalidTagDirective)
    else if buf[c + 1] == ' ' || buf[c + 1] == '\t' then
      assert buf[c..c + 1] == "!";
      Ok(c + 1)
    else if buf[c + 1] == '!' then
      if c + 2 == |buf| then Err(InvalidTagDirective)
      else if buf[c + 2] != ' ' && buf[c + 2] != '\t' then Err(InvalidTagHandle)
      else
        assert buf[c..c + 2] == "!!";
        Ok(c + 2)
    else
      var h :- NamedHandleEnd(buf, c + 1);
      assert buf[c..h][0] == '!' && buf[c..h][h - c - 1] == '!';
      Ok(h)
  }

  /** Conversely, every well-formed handle followed by a blank is read
      up to that blank. */
  lemma TagHandleComplete(buf: string, c: nat, h: nat)
    requires c < h < |buf| && TagHandle(buf[c..h]) && buf[h] in WhiteSpaces
    ensures TagHandleEnd(buf, c) == Ok(h)
  {
    assert buf[c] == buf[c..h][0];
    if h - c >= 3 {
      assert buf[c + 1] == buf[c..h][1];
      assert buf[h - 1] == buf[c..h][h - c - 1];
      assert forall k :: c + 1 <= k < h - 1 ==> buf[k] == buf[c..h][k - c];
      NamedHandleComplete(buf, c + 1, h);
    } else if h - c == 2 {
      assert buf[c + 1] == buf[c..h][1];
    }
  }

  lemma {:induction false} NamedHandleComplete(buf: string, p: nat, h: nat)
    requires p < h < |buf| && buf[h - 1] == '!' && buf[h] in WhiteSpaces
    requires forall k :: p <= k < h - 1 ==> IsAlnum(buf[k]) || buf[k] == '-'
    ensures NamedHandleEnd(buf, p) == Ok(h)
    decreases h - p
  {
    if p < h - 1 {
      NamedHandleComplete(buf, p + 1, h);
    }
  }

  /** The prefix part of scan_tag_directive from `c`: it must not start
      with a flow indicator, runs to the next blank or line break and must
      be a valid URI. */
  function TagPrefixEnd(buf: string, c: nat, validUri: UriCheck): (r: Result<nat, ScanError>)
    requires c <= |buf|
    ensures r.Ok? ==> r.value == FindFirstOf(buf, c, WhiteSpacesAndNewlines)
    ensures r.Ok? <==> c < |buf| && buf[c] !in FlowIndicators && validUri(buf[c..FindFirstOf(buf, c, WhiteSpacesAndNewlines)])
  {
    if c == |buf| then Err(ReadPastEnd)
    else if buf[c] in FlowIndicators then Err(FlowIndicatorInTagPrefix)
    else
      var e := FindFirstOf(buf, c, WhiteSpacesAndNewlines);
      if !validUri(buf[c..e]) then Err(InvalidUri) else Ok(e)
  }

  /** scan_tag_directive from `c`, the first character after the blanks
      that follow `%TAG`. */
  function ScanTagDirective(buf: string, c: nat, validUri: UriCheck): (r: Result<DirectiveScan, ScanError>)
    requires c <= |buf|
  {
    var h :- TagHandleEnd(buf, c);
    var pc := SkipWhile(buf, h, WhiteSpaces);
    var pe :- TagPrefixEnd(buf, pc, validUri);
    Ok(DirectiveScan(TagDirective(Range(c, h), Range(pc, pe)), pe))
  }

  /** A stored handle is well formed and separated by blanks from a prefix
      that does not start with a flow indicator, is a valid URI and is
      followed by a blank, a line break or the end of the buffer. */
  lemma TagDirectiveMeaning(buf: string, c: nat, validUri: UriCheck)
    requires c <= |buf|
    ensures var r := ScanTagDirective(buf, c, validUri);
      r.Ok? ==>
        && r.value.directive.TagDirective?
        && var h := r.value.directive.handle;
        && var p := r.value.directive.prefix;
        && h.begin == c < h.end < p.begin <= p.end == r.value.next <= |buf|
        && TagHandle(buf[c..h.end])
        && (forall k :: h.end <= k < p.begin ==> buf[k] in WhiteSpaces)
        && buf[p.begin] !in FlowIndicators
        && validUri(buf[p.begin..p.end])
        && (p.end == |buf| || buf[p.end] in WhiteSpacesAndNewlines)
  {
  }

  const Tag: string := "TAG"
  const Yaml: string := "YAML"

  /** scan_directive for the `%` at `d`. The name runs to the first blank
      or line break; a line break right after the name, or an unknown name,
      gives an invalid directive and skips the rest of the line. `%TAG` and
      `%YAML` must be followed by a blank. */
  function ScanDirective(buf: string, d: nat, validUri: UriCheck): (r: Result<DirectiveScan, ScanError>)
    requires d < |buf| && buf[d] == '%'
    ensures r.Ok? ==> d < r.value.next <= |buf|
  {
    var e := FindFirstOf(buf, d + 1, WhiteSpacesAndNewlines);
    if e < |buf| && buf[e] == '\n' then Ok(DirectiveScan(InvalidDirective, SkipUntilLineEnd(buf, e)))
    else if buf[d + 1..e] == Tag then
      if e == |buf| then Err(MissingSpaceAfterDirectiveName)
      else
        ScanTagDirective(buf, SkipWhile(buf, e, WhiteSpaces), validUri)
    else if buf[d + 1..e] == Yaml then
      if e == |buf| then Err(MissingSpaceAfterDirectiveName)
      else ScanYamlVersion(buf, SkipWhile(buf, e, WhiteSpaces))
    else Ok(DirectiveScan(InvalidDirective, SkipUntilLineEnd(buf, e)))
  }

  /** An unknown directive name, or a line break straight after the name,
      yields an invalid directive whose line is skipped; a `%YAML`
      directive is accepted exactly when a blank follows the name and the
      next word is a supported version. */
  lemma ScanDirectiveMeaning(buf: string, d: nat, validUri: UriCheck)
    requires d < |buf| && buf[d] == '%'
    ensures var e := FindFirstOf(buf, d + 1, WhiteSpacesAndNewlines);
      var name := buf[d + 1..e];
      var r := ScanDirective(buf, d, validUri);
      && ((e < |buf| && buf[e] == '\n') || (name != Tag && name != Yaml) ==>
            r == Ok(DirectiveScan(InvalidDirective, SkipUntilLineEnd(buf, e))))
      && (r.Ok? && r.value.directive.InvalidDirective? ==>
            r.value.next == |buf| || buf[r.value.next - 1] == '\n')
      && ((name == Tag || name == Yaml) && e == |buf| ==> r == Err(MissingSpaceAfterDirectiveName))
      && (name == Yaml && e < |buf| && buf[e] != '\n' ==>
            var v := SkipWhile(buf, e, WhiteSpaces);
            (r.Ok? <==> SupportedVersion(buf[v..FindFirstOf(buf, v, WhiteSpacesAndNewlines)])))
      && (r.Ok? && r.value.directive.YamlVersionDirective? ==>
            var v := r.value.directive.version;
            v.begin <= v.end <= |buf| && SupportedVersion(buf[v.begin..v.end]))
  {
  }
}
