/** Where a quoted scalar ends (determine_single_quoted_scalar_range and
    determine_double_quoted_scalar_range of lexical_analyzer.hpp). Both
    search forward from the character after the opening quote `b` for the
    first quote that is not escaped. */
module QuotedRange {
  import opened Wrappers
  import opened ScanText

  const SingleQuoteSet: set<char> := {'\''}
  const DoubleQuoteSet: set<char> := {'"'}

  /** buf[i..j] can be the body of a single-quoted scalar: a quote occurs
      only as the escaped pair `''`, paired from the left. */
  predicate SingleQuotedBody(buf: string, i: nat, j: nat)
    requires i <= j <= |buf|
    decreases j - i
  {
    || i == j
    || (buf[i] != '\'' && SingleQuotedBody(buf, i + 1, j))
    || (i + 1 < j && buf[i] == '\'' && buf[i + 1] == '\'' && SingleQuotedBody(buf, i + 2, j))
  }

  /** A quote that is not the first half of an escaped pair. */
  predicate ClosesSingle(buf: string, q: nat)
    requires q < |buf|
  {
    buf[q] == '\'' && (q + 1 == |buf| || buf[q + 1] != '\'')
  }

  lemma {:induction false} NoQuoteBody(buf: string, i: nat, j: nat)
    requires i <= j <= |buf|
    requires forall k :: i <= k < j ==> buf[k] != '\''
    ensures SingleQuotedBody(buf, i, j)
    decreases j - i
  {
    if i < j {
      NoQuoteBody(buf, i + 1, j);
    }
  }

  /** A quote-free stretch followed by an escaped pair extends a body. */
  lemma {:induction false} BodyExtends(buf: string, i: nat, p: nat, j: nat)
    requires i <= p && p + 2 <= j <= |buf|
    requires forall k :: i <= k < p ==> buf[k] != '\''
    requires buf[p] == '\'' && buf[p + 1] == '\''
    requires SingleQuotedBody(buf, p + 2, j)
    ensures SingleQuotedBody(buf, i, j)
    decreases p - i
  {
    if i < p {
      BodyExtends(buf, i + 1, p, j);
    }
  }

  /** Conversely, a body running past the first quote pairs that quote. */
  lemma {:induction false} BodySplits(buf: string, i: nat, p: nat, j: nat)
    requires i <= p < j <= |buf|
    requires forall k :: i <= k < p ==> buf[k] != '\''
    requires buf[p] == '\''
    requires SingleQuotedBody(buf, i, j)
    ensures p + 2 <= j && buf[p + 1] == '\'' && SingleQuotedBody(buf, p + 2, j)
    decreases p - i
  {
    if i < p {
      BodySplits(buf, i + 1, p, j);
    }
  }

  lemma SkipEscapedPair(buf: string, i: nat, p: nat)
    requires i <= p && p + 2 <= |buf|
    requires forall k :: i <= k < p ==> buf[k] != '\''
    requires buf[p] == '\'' && buf[p + 1] == '\''
    requires forall q :: p + 2 <= q < |buf| && SingleQuotedBody(buf, p + 2, q) ==> !ClosesSingle(buf, q)
    ensures forall q :: i <= q < |buf| && SingleQuotedBody(buf, i, q) ==> !ClosesSingle(buf, q)
  {
    forall q | i <= q < |buf| && SingleQuotedBody(buf, i, q)
      ensures !ClosesSingle(buf, q)
    {
      if p < q {
        BodySplits(buf, i, p, q);
      }
    }
  }

  /** The loop of determine_single_quoted_scalar_range, searching from `i`:
      the closing quote ends a well-formed body, and when there is none no
      position could close the scalar. */
  function SingleQuoteClose(buf: string, i: nat): (r: Option<nat>)
    requires i <= |buf|
    ensures r.Some? ==> i <= r.value < |buf| && ClosesSingle(buf, r.value) && SingleQuotedBody(buf, i, r.value)
    ensures r.None? ==> forall q :: i <= q < |buf| && SingleQuotedBody(buf, i, q) ==> !ClosesSingle(buf, q)
    decreases |buf| - i
  {
    var pos := FindFirstOf(buf, i, SingleQuoteSet);
    if pos == |buf| then
      None
    else if pos == |buf| - 1 || buf[pos + 1] != '\'' then
      NoQuoteBody(buf, i, pos);
      Some(pos)
    else
      var r := SingleQuoteClose(buf, pos + 2);
      if r.Some? then
        BodyExtends(buf, i, pos, r.value);
        r
      else
        SkipEscapedPair(buf, i, pos);
        r
  }

  /** Number of backslashes immediately before position `q`, not looking
      below position `lo`. */
  function BackslashRun(buf: string, lo: nat, q: nat): (n: nat)
    requires lo <= q <= |buf|
    ensures n <= q - lo
    decreases q - lo
  {
    if q == lo || buf[q - 1] != '\\' then 0 else 1 + BackslashRun(buf, lo, q - 1)
  }

  /** The count is the length of the maximal run of backslashes ending
      just before `q`: every character of the run is a backslash, and the
      one before it is not, unless the run reaches `lo`. */
  lemma {:induction false} BackslashRunMeaning(buf: string, lo: nat, q: nat)
    requires lo <= q <= |buf|
    ensures var n := BackslashRun(buf, lo, q);
      && (forall k :: q - n <= k < q ==> buf[k] == '\\')
      && (q - n == lo || buf[q - n - 1] != '\\')
    decreases q - lo
  {
    if q != lo && buf[q - 1] == '\\' {
      BackslashRunMeaning(buf, lo, q - 1);
    }
  }

  /** A double quote closes the scalar opened just before `b` when the run
      of backslashes before it, inside the scalar, has even length. */
  predicate ClosesDouble(buf: string, b: nat, q: nat)
    requires b <= q < |buf|
  {
    buf[q] == '"' && BackslashRun(buf, b, q) % 2 == 0
  }

  /** determine_double_quoted_scalar_range with the escape rule its comment
      states: the first double quote preceded by an even backslash run. */
  function DoubleQuoteClose(buf: string, b: nat, i: nat): (r: Option<nat>)
    requires b <= i <= |buf|
    ensures r.Some? ==> i <= r.value < |buf|
    decreases |buf| - i
  {
    var pos := FindFirstOf(buf, i, DoubleQuoteSet);
    if pos == |buf| then None
    else if BackslashRun(buf, b, pos) % 2 == 0 then Some(pos)
    else DoubleQuoteClose(buf, b, pos + 1)
  }

  /** The search finds the first double quote at or after `i` whose
      backslash run is even, and reports none exactly when there is no such
      quote. */
  lemma {:induction false} DoubleQuoteCloseMeaning(buf: string, b: nat, i: nat)
    requires b <= i <= |buf|
    ensures FirstClose(buf, b, i, DoubleQuoteClose(buf, b, i))
    decreases |buf| - i
  {
    var pos := FindFirstOf(buf, i, DoubleQuoteSet);
    if pos == |buf| || BackslashRun(buf, b, pos) % 2 == 0 {
      StopAtFirstQuote(buf, b, i);
    } else {
      DoubleQuoteCloseMeaning(buf, b, pos + 1);
      SkipEscapedQuoteClose(buf, b, i, pos);
    }
  }

  /** When the first double quote at or after `i` is missing or closes the
      scalar, the search stops there. */
  lemma StopAtFirstQuote(buf: string, b: nat, i: nat)
    requires b <= i <= |buf|
    requires var pos := FindFirstOf(buf, i, DoubleQuoteSet);
      pos == |buf| || BackslashRun(buf, b, pos) % 2 == 0
    ensures FirstClose(buf, b, i, DoubleQuoteClose(buf, b, i))
  {
    var pos := FindFirstOf(buf, i, DoubleQuoteSet);
    NoCloseBefore(buf, b, i, pos);
    if pos == |buf| {
      assert DoubleQuoteClose(buf, b, i) == None;
    } else {
      assert DoubleQuoteClose(buf, b, i) == Some(pos);
      assert buf[pos] in DoubleQuoteSet;
      assert ClosesDouble(buf, b, pos);
    }
  }

  /** An escaped first quote at `pos` does not close the scalar, so the
      search from `i` finds what the search from `pos + 1` finds. */
  lemma SkipEscapedQuoteClose(buf: string, b: nat, i: nat, pos: nat)
    requires b <= i <= pos < |buf|
    requires pos == FindFirstOf(buf, i, DoubleQuoteSet)
    requires BackslashRun(buf, b, pos) % 2 != 0
    requires FirstClose(buf, b, pos + 1, DoubleQuoteClose(buf, b, pos + 1))
    ensures FirstClose(buf, b, i, DoubleQuoteClose(buf, b, i))
  {
    NoCloseBefore(buf, b, i, pos);
    ContinueAfterQuote(buf, b, i, pos);
    var r := DoubleQuoteClose(buf, b, pos + 1);
    assert DoubleQuoteClose(buf, b, i) == r;
    NoCloseJoin(buf, b, i, pos, if r.Some? then r.value else |buf|);
  }

  /** `r` is the first double quote at or after `i` that closes the scalar
      opened before `b`, or none when no quote there closes it. */
  predicate FirstClose(buf: string, b: nat, i: nat, r: Option<nat>)
    requires b <= i <= |buf|
  {
    match r
    case Some(q) => i <= q < |buf| && ClosesDouble(buf, b, q) && NoCloseIn(buf, b, i, q)
    case None => NoCloseIn(buf, b, i, |buf|)
  }

  /** No double quote in `[lo, hi)` closes the scalar opened before `b`. */
  predicate NoCloseIn(buf: string, b: nat, lo: nat, hi: nat)
    requires b <= lo && hi <= |buf|
  {
    forall k :: lo <= k < hi ==> !ClosesDouble(buf, b, k)
  }

  /** A stretch without a closing quote, a quote that does not close, and
      another such stretch make one stretch without a closing quote. */
  lemma NoCloseJoin(buf: string, b: nat, lo: nat, pos: nat, hi: nat)
    requires b <= lo <= pos < hi <= |buf|
    requires NoCloseIn(buf, b, lo, pos) && !ClosesDouble(buf, b, pos) && NoCloseIn(buf, b, pos + 1, hi)
    ensures NoCloseIn(buf, b, lo, hi)
  {
    forall k | lo <= k < hi
      ensures !ClosesDouble(buf, b, k)
    {
      if pos < k {
        assert pos + 1 <= k;
      }
    }
  }

  lemma NoCloseBefore(buf: string, b: nat, i: nat, pos: nat)
    requires b <= i <= pos <= |buf| && pos == FindFirstOf(buf, i, DoubleQuoteSet)
    ensures NoCloseIn(buf, b, i, pos)
  {
    forall k | i <= k < pos
      ensures !ClosesDouble(buf, b, k)
    {
      assert buf[k] !in DoubleQuoteSet;
    }
  }

  /** The backslash count as the C++ do-while computes it: it walks down
      from the character before the quote and stops once its pointer
      reaches the first character of the scalar, without examining it,
      unless the quote is only one character in. */
  function BackslashRunAsWritten(buf: string, b: nat, q: nat): nat
    requires b <= q <= |buf|
  {
    var lo := if q - b >= 2 then b + 1 else b;
    BackslashRun(buf, lo, q)
  }

  /** determine_double_quoted_scalar_range as written. */
  function DoubleQuoteCloseAsWritten(buf: string, b: nat, i: nat): (r: Option<nat>)
    requires b <= i <= |buf|
    ensures r.Some? ==> i <= r.value < |buf|
    decreases |buf| - i
  {
    var pos := FindFirstOf(buf, i, DoubleQuoteSet);
    if pos == |buf| then None
    else if BackslashRunAsWritten(buf, b, pos) % 2 == 0 then Some(pos)
    else DoubleQuoteCloseAsWritten(buf, b, pos + 1)
  }

  /** The input `"\\"` (an escaped backslash) is never closed as written,
      while the escape rule closes it at its last character. */
  lemma EscapedBackslashUnclosedAsWritten()
    ensures DoubleQuoteCloseAsWritten("\"\\\\\"", 1, 1) == None
    ensures DoubleQuoteClose("\"\\\\\"", 1, 1) == Some(3)
  {
    var buf := "\"\\\\\"";
    assert buf[3] == '"' && buf[1] == '\\' && buf[2] == '\\';
    assert FindFirstOf(buf, 1, DoubleQuoteSet) == 3;
    assert BackslashRun(buf, 2, 3) == 1;
    assert BackslashRun(buf, 1, 3) == 2;
  }

  /** The two only differ when the backslash run reaches the first character
      of the scalar. */
  lemma {:induction false} DoubleQuoteCloseAgrees(buf: string, b: nat, i: nat)
    requires b <= i <= |buf|
    requires b < |buf| ==> buf[b] != '\\'
    ensures DoubleQuoteCloseAsWritten(buf, b, i) == DoubleQuoteClose(buf, b, i)
    decreases |buf| - i, 1
  {
    var pos := FindFirstOf(buf, i, DoubleQuoteSet);
    if pos < |buf| && BackslashRun(buf, b, pos) % 2 != 0 {
      SkipEscapedQuote(buf, b, i, pos);
    } else {
      StopAtQuote(buf, b, i, pos);
    }
  }

  /** Both searches skip an escaped quote alike and continue after it. */
  lemma {:induction false} SkipEscapedQuote(buf: string, b: nat, i: nat, pos: nat)
    requires b <= i <= pos < |buf|
    requires b < |buf| ==> buf[b] != '\\'
    requires pos == FindFirstOf(buf, i, DoubleQuoteSet)
    requires BackslashRun(buf, b, pos) % 2 != 0
    ensures DoubleQuoteCloseAsWritten(buf, b, i) == DoubleQuoteClose(buf, b, i)
    decreases |buf| - i, 0
  {
    RunAgrees(buf, b, pos);
    DoubleQuoteCloseAgrees(buf, b, pos + 1);
    ContinueAfterQuote(buf, b, i, pos);
    ContinueAfterQuoteAsWritten(buf, b, i, pos);
  }

  lemma {:induction false} ContinueAfterQuote(buf: string, b: nat, i: nat, pos: nat)
    requires b <= i <= pos < |buf|
    requires pos == FindFirstOf(buf, i, DoubleQuoteSet)
    requires BackslashRun(buf, b, pos) % 2 != 0
    ensures DoubleQuoteClose(buf, b, i) == DoubleQuoteClose(buf, b, pos + 1)
  {
    assert pos != |buf| && !(BackslashRun(buf, b, pos) % 2 == 0);
  }

  lemma {:induction false} ContinueAfterQuoteAsWritten(buf: string, b: nat, i: nat, pos: nat)
    requires b <= i <= pos < |buf|
    requires pos == FindFirstOf(buf, i, DoubleQuoteSet)
    requires BackslashRunAsWritten(buf, b, pos) % 2 != 0
    ensures DoubleQuoteCloseAsWritten(buf, b, i) == DoubleQuoteCloseAsWritten(buf, b, pos + 1)
  {
    assert pos != |buf| && !(BackslashRunAsWritten(buf, b, pos) % 2 == 0);
  }

  /** Both searches stop alike at an unescaped quote or the end. */
  lemma {:induction false} StopAtQuote(buf: string, b: nat, i: nat, pos: nat)
    requires b <= i <= pos <= |buf|
    requires b < |buf| ==> buf[b] != '\\'
    requires pos == FindFirstOf(buf, i, DoubleQuoteSet)
    requires pos < |buf| ==> BackslashRun(buf, b, pos) % 2 == 0
    ensures DoubleQuoteCloseAsWritten(buf, b, i) == DoubleQuoteClose(buf, b, i)
  {
    if pos < |buf| {
      RunAgrees(buf, b, pos);
    }
  }

  lemma {:induction false} RunAgrees(buf: string, b: nat, q: nat)
    requires b <= q <= |buf|
    requires b < |buf| ==> buf[b] != '\\'
    ensures BackslashRunAsWritten(buf, b, q) == BackslashRun(buf, b, q)
    decreases q - b
  {
    if q - b >= 2 && buf[q - 1] == '\\' {
      RunAgrees(buf, b, q - 1);
    }
  }
}
