/** Anchor, alias and tag names in lexical_analyzer.hpp (extract_anchor_name
    and extract_tag_name). Both return a view into the buffer; tags are
    checked against the shapes of section 6.9.1 of the YAML 1.2.2
    specification as far as the scanner checks them, with URI validity
    left to a predicate the caller supplies. */
module AnchorTag {
  import opened Wrappers
  import opened ScanText

  /** The characters that end an anchor or alias name. */
  const AnchorStop: set<char> := {' ', '\t', '\n', '{', '}', '[', ']', ','}
  const Bang: set<char> := {'!'}
  const AnchorIndicators: set<char> := {'&', '*'}

  /** extract_anchor_name for the indicator (`&` or `*`) at `a`: the name
      is the longest run after the indicator free of blanks, line breaks
      and flow indicators, and it must not be empty. */
  function ExtractAnchorName(buf: string, a: nat): (r: Result<Range, ScanError>)
    requires a < |buf| && buf[a] in AnchorIndicators
    ensures r.Ok? <==> a + 1 < |buf| && buf[a + 1] !in AnchorStop
    ensures r.Err? ==> r.error == EmptyAnchorName
    ensures r.Ok? ==> r.value.begin == a + 1 < r.value.end <= |buf|
    ensures r.Ok? ==> forall k :: r.value.begin <= k < r.value.end ==> buf[k] !in AnchorStop
    ensures r.Ok? ==> r.value.end == |buf| || buf[r.value.end] in AnchorStop
  {
    var e := FindFirstOf(buf, a + 1, AnchorStop);
    if e == a + 1 then Err(EmptyAnchorName) else Ok(Range(a + 1, e))
  }

  /** The tag-name loop of extract_tag_name over [p, e): every `!` is a
      second handle delimiter, allowed once when `allows` holds and never
      otherwise. The result says whether a named handle was seen. */
  function TagBangs(buf: string, p: nat, e: nat, allows: bool, named: bool): (r: Result<bool, ScanError>)
    requires p <= e <= |buf|
    ensures r.Ok? <==> CountIn(buf, p, e, Bang) <= (if allows then 1 else 0)
    ensures r.Ok? ==> r.value == (named || CountIn(buf, p, e, Bang) > 0)
    ensures r.Err? ==> r.error == InvalidTagPrefix
    decreases e - p
  {
    if p == e then Ok(named)
    else
      CountInFront(buf, p, e, Bang);
      if buf[p] == '!' then
        if !allows then Err(InvalidTagPrefix) else TagBangs(buf, p + 1, e, false, true)
      else TagBangs(buf, p + 1, e, allows, named)
  }

  /** `find_last_of('!')` within a tag that starts with `!` at `t`. */
  function LastBang(buf: string, t: nat, e: nat): (r: nat)
    requires t < e <= |buf| && buf[t] == '!'
    ensures t <= r < e && buf[r] == '!'
    ensures forall k :: r < k < e ==> buf[k] != '!'
    decreases e - t
  {
    if buf[e - 1] == '!' then e - 1 else LastBang(buf, t, e - 1)
  }

  /** The URI checks on a tag shorthand's suffix `buf[lb + 1..e]`. */
  function CheckShorthandSuffix(buf: string, lb: nat, e: nat, validUri: UriCheck): (r: Result<(), ScanError>)
    requires lb < e <= |buf|
    ensures r.Ok? <==> validUri(buf[lb + 1..e]) && forall k :: lb < k < e ==> buf[k] !in FlowIndicators
  {
    if !validUri(buf[lb + 1..e]) then Err(InvalidUri)
    else if FindFirstOf(buf, lb + 1, FlowIndicators) < e then Err(FlowIndicatorInTagShorthand)
    else Ok(())
  }

  /** extract_tag_name for the `!` at `t`. The switch on the character
      after `!` consumes it, and for a verbatim tag the `++` before the loop
      consumes one more, so the loop first looks at `t + 2` (`t + 3` for
      `!<`). A verbatim tag whose `!<` ends the buffer makes the loop read
      past the end. */
  function ExtractTagName(buf: string, t: nat, validUri: UriCheck): (r: Result<Range, ScanError>)
    requires t < |buf| && buf[t] == '!'
    ensures r.Ok? ==> r.value.begin == t < r.value.end <= |buf|
    ensures r.Ok? ==> r.value.end == |buf| || buf[r.value.end] in WhiteSpacesAndNewlines
    ensures r.Ok? ==> forall k :: t + 3 <= k < r.value.end ==> buf[k] !in WhiteSpacesAndNewlines
    ensures r.Ok? && t + 1 < |buf| && buf[t + 1] != '<' ==>
      forall k :: t + 2 <= k < r.value.end ==> buf[k] !in WhiteSpacesAndNewlines
  {
    if t + 1 == |buf| then Ok(Range(t, |buf|))
    else if buf[t + 1] == ' ' || buf[t + 1] == '\n' then Ok(Range(t, t + 1))
    else if buf[t + 1] == '<' then
      if t + 2 == |buf| then Err(ReadPastEnd)
      else
        var e := FindFirstOf(buf, t + 3, WhiteSpacesAndNewlines);
        var _ :- TagBangs(buf, t + 3, e, false, false);
        if buf[e - 1] != '>' then Err(VerbatimTagNotClosed)
        else if e - 1 == t + 2 then Err(EmptyVerbatimTag)
        else if !validUri(buf[t + 2..e - 1]) then Err(InvalidUri)
        else Ok(Range(t, e))
    else
      var e := FindFirstOf(buf, t + 2, WhiteSpacesAndNewlines);
      var named :- TagBangs(buf, t + 2, e, buf[t + 1] != '!', false);
      if named && buf[e - 1] == '!' then Err(NamedHandleWithoutSuffix)
      else
        var _ :- CheckShorthandSuffix(buf, LastBang(buf, t, e), e, validUri);
        Ok(Range(t, e))
  }

  /** A verbatim tag `!<...>` is accepted exactly when it is closed by `>`
      right before the blank that ends it, its body is not empty, is a
      valid URI, and holds no `!` (the character right after `<` is never
      examined). */
  lemma VerbatimTagMeaning(buf: string, t: nat, validUri: UriCheck)
    requires t + 2 < |buf| && buf[t] == '!' && buf[t + 1] == '<'
    ensures var e := FindFirstOf(buf, t + 3, WhiteSpacesAndNewlines);
      && (ExtractTagName(buf, t, validUri).Ok? <==>
            CountIn(buf, t + 3, e, Bang) == 0 && buf[e - 1] == '>' && t + 2 < e - 1 && validUri(buf[t + 2..e - 1]))
      && (ExtractTagName(buf, t, validUri).Ok? ==> ExtractTagName(buf, t, validUri).value == Range(t, e))
  {
  }

  /** A tag shorthand (`!suffix`, `!!suffix` or `!handle!suffix`) is
      accepted exactly when it holds at most two `!` (one after a leading
      `!!`), a named handle has a non-empty suffix, and the suffix after
      the last `!` is a valid URI without flow indicators. */
  lemma ShorthandTagMeaning(buf: string, t: nat, validUri: UriCheck)
    requires t + 1 < |buf| && buf[t] == '!' && buf[t + 1] !in {' ', '\n', '<'}
    ensures var e := FindFirstOf(buf, t + 2, WhiteSpacesAndNewlines);
      var bangs := CountIn(buf, t, e, Bang);
      var lb := LastBang(buf, t, e);
      && (ExtractTagName(buf, t, validUri).Ok? <==>
            && bangs <= 2
            && (bangs == 2 && buf[t + 1] != '!' ==> buf[e - 1] != '!')
            && validUri(buf[lb + 1..e])
            && (forall k :: lb < k < e ==> buf[k] !in FlowIndicators))
      && (ExtractTagName(buf, t, validUri).Ok? ==> ExtractTagName(buf, t, validUri).value == Range(t, e))
  {
    var e := FindFirstOf(buf, t + 2, WhiteSpacesAndNewlines);
    CountInFront(buf, t, e, Bang);
    CountInFront(buf, t + 1, e, Bang);
  }
}
