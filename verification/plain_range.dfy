/** Where a plain (unquoted) scalar ends: determine_plain_scalar_range of
    lexical_analyzer.hpp. The scanner jumps between the characters of a
    filter set with `find_first_of` and decides at each one whether the
    scalar ends there. */
module PlainRange {
  import opened ScanText

  /** The characters at which the scanner stops to look. */
  const PlainFilter: set<char> := {'\n', ' ', ':', '{', '}', '[', ']', ','}

  /** Whether the scalar ends at position `k`: a line break; a space that is
      the last character, or is followed by white space, a comment `#`, a
      `:` that is itself followed by a space, or (in a flow context) a flow
      indicator; a `:` followed by white space; a flow indicator in a flow
      context. */
  predicate EndsPlain(buf: string, k: nat, flow: bool)
    requires k < |buf|
  {
    var c := buf[k];
    if c == '\n' then true
    else if c == ' ' then
      if k == |buf| - 1 then true
      else
        var n := buf[k + 1];
        if n == ' ' || n == '\t' || n == '\n' || n == '#' then true
        else if n == ':' then k + 2 < |buf| && buf[k + 2] == ' '
        else if n in FlowIndicators then flow
        else false
    else if c == ':' then k + 1 < |buf| && buf[k + 1] in WhiteSpacesAndNewlines
    else if c in FlowIndicators then flow
    else false
  }

  lemma EndsOnlyAtFilter(buf: string, k: nat, flow: bool)
    requires k < |buf|
    requires EndsPlain(buf, k, flow)
    ensures buf[k] in PlainFilter
  {
  }

  /** The search loop from position `pos` on. */
  function PlainEndFrom(buf: string, b: nat, pos: nat, flow: bool): (r: nat)
    requires b <= pos <= |buf|
    requires forall k :: b <= k < pos ==> !EndsPlain(buf, k, flow)
    ensures pos <= r <= |buf|
    ensures r < |buf| ==> EndsPlain(buf, r, flow)
    ensures forall k :: b <= k < r ==> !EndsPlain(buf, k, flow)
    decreases |buf| - pos
  {
    var p := FindFirstOf(buf, pos, PlainFilter);
    assert forall k :: pos <= k < p ==> !EndsPlain(buf, k, flow) by {
      forall k | pos <= k < p
        ensures !EndsPlain(buf, k, flow)
      {
        if EndsPlain(buf, k, flow) {
          EndsOnlyAtFilter(buf, k, flow);
        }
      }
    }
    if p == |buf| then p
    else if EndsPlain(buf, p, flow) then p
    else PlainEndFrom(buf, b, p + 1, flow)
  }

  /** determine_plain_scalar_range from the token start `b`: the scalar is
      buf[b..r] where `r` is the first position at which it ends, or the end
      of the buffer. */
  function PlainEnd(buf: string, b: nat, flow: bool): (r: nat)
    requires b <= |buf|
    ensures b <= r <= |buf|
    ensures r < |buf| ==> EndsPlain(buf, r, flow)
    ensures forall k :: b <= k < r ==> !EndsPlain(buf, k, flow)
  {
    PlainEndFrom(buf, b, b, flow)
  }

  /** A plain scalar never spans a line break, and in a flow context never
      contains a flow indicator. */
  lemma PlainScalarShape(buf: string, b: nat, flow: bool)
    requires b <= |buf|
    ensures forall k :: b <= k < PlainEnd(buf, b, flow) ==> buf[k] != '\n'
    ensures flow ==> forall k :: b <= k < PlainEnd(buf, b, flow) ==> buf[k] !in FlowIndicators
    ensures forall k :: b <= k < PlainEnd(buf, b, flow) ==> !(buf[k] == ':' && k + 1 < |buf| && buf[k + 1] == ' ')
  {
    var r := PlainEnd(buf, b, flow);
    forall k | b <= k < r
      ensures buf[k] != '\n'
      ensures flow ==> buf[k] !in FlowIndicators
      ensures !(buf[k] == ':' && k + 1 < |buf| && buf[k + 1] == ' ')
    {
      assert !EndsPlain(buf, k, flow);
    }
  }

  /** Scanning starts at a character that does not end a scalar, so the
      scalar is not empty. */
  lemma PlainNonEmpty(buf: string, b: nat, flow: bool)
    requires b < |buf|
    requires !EndsPlain(buf, b, flow)
    ensures PlainEnd(buf, b, flow) > b
  {
  }
}
