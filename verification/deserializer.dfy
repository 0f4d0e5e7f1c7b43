/** The deserializer of include/fkYAML/detail/input/deserializer.hpp: a
    token-driven state machine that builds a node tree. Its input is a
    sequence of tokens, whatever lexer produced them. The C++ code keeps raw
    pointers to the node being filled and to its ancestors; here those are
    paths from the root, so the node stack is a stack of paths. Pops the
    source performs without checking the stack (undefined behaviour on an
    empty vector) are explicit StackUnderflow errors. */
module Deserializer {
  import opened Wrappers
  import OrderedMap
  import opened YamlNode

  /** The token kinds of lexical_token_t. The scalar kinds carry the value
      the lexer converts them to (get_boolean, get_integer); the text of a
      token is what get_string returns. */
  datatype TokenKind =
    | EndOfBuffer
    | ExplicitKeyPrefix
    | KeySeparator
    | ValueSeparator
    | AnchorPrefix
    | AliasPrefix
    | CommentPrefix
    | YamlVerDirective
    | TagDirective
    | InvalidDirective
    | TagPrefix
    | SequenceBlockPrefix
    | SequenceFlowBegin
    | SequenceFlowEnd
    | MappingBlockPrefix
    | MappingFlowBegin
    | MappingFlowEnd
    | PlainScalar
    | SingleQuotedScalar
    | DoubleQuotedScalar
    | BlockLiteralScalar
    | BlockFoldedScalar
    | NullScalar
    | BooleanScalar(b: bool)
    | IntegerScalar(i: int64)
    | FloatScalar
    | StringScalar
    | EndOfDirectives
    | EndOfDocument

  /** A token with its text, the column it begins at (the indentation the
      deserializer compares) and its line. */
  datatype Token = Token(kind: TokenKind, text: string, indent: nat, line: nat)

  datatype Reason =
    | KeySeparatorWithoutKey
    | AliasBeforeAnchor
    | InvalidSequenceBlockPrefix
    | InvalidMappingFlowEnd
    | InvalidIndentation
    | DuplicateKey
    | UnsupportedToken
    | NotAMapping
    | StackUnderflow
    | AssertionViolated

  /** parse_error with the line and column of the token being handled. */
  datatype ParseError = ParseError(reason: Reason, line: nat, column: nat)

  function Fail<T>(reason: Reason, t: Token): Result<T, ParseError> {
    Err(ParseError(reason, t.line, t.indent))
  }

  /** The members of basic_deserializer. They outlive a call to
      deserialize; a call clears all but the version and the anchor name
      before it returns successfully. */
  datatype Parser = Parser(
    nodeStack: seq<Path>,
    indentStack: seq<nat>,
    version: YamlVersion,
    needsAnchor: bool,
    anchorName: string,
    anchorTable: map<string, Node>)

  /** A default-constructed parser. */
  const Fresh: Parser := Parser([], [], Ver12, false, "", map[])

  /** A parser whose stacks, pending anchor and anchor table are empty, as
      before its first call and after every successful one. */
  predicate Reusable(p: Parser) {
    p.nodeStack == [] && p.indentStack == [] && !p.needsAnchor && p.anchorTable == map[]
  }

  /** The parse state: the root under construction, the path of the
      current node, and the parser's members. */
  datatype State = State(
    root: Node,
    current: Path,
    nodeStack: seq<Path>,
    indentStack: seq<nat>,
    version: YamlVersion,
    needsAnchor: bool,
    anchorName: string,
    anchorTable: map<string, Node>)

  predicate ProperPrefix(p: Path, q: Path) {
    |p| < |q| && p == q[..|p|]
  }

  /** The node stack holds ancestors of the current node, outermost first. */
  predicate StackChain(s: seq<Path>, c: Path) {
    && (forall i :: 0 <= i < |s| ==> ProperPrefix(s[i], c))
    && (forall i, j :: 0 <= i < j < |s| ==> |s[i]| < |s[j]|)
  }

  /** What every step keeps: the current path leads to a node, the stacked
      paths lead to its ancestors, and every mapping in the tree and in the
      anchor table has unique keys. */
  predicate Inv(st: State) {
    && ValidPath(st.root, st.current)
    && StackChain(st.nodeStack, st.current)
    && WellFormed(st.root)
    && (forall name :: name in st.anchorTable ==> WellFormed(st.anchorTable[name]))
  }

  /** `*m_current_node`. */
  function Cur(st: State): Node
    requires ValidPath(st.root, st.current)
  {
    Get(st.root, st.current).value
  }

  predicate IsSeq(n: Node) {
    n.value.SeqValue?
  }

  predicate IsMap(n: Node) {
    n.value.MapValue?
  }

  /// Moving around the tree

  /** `*m_current_node = n`. */
  function SetCurrent(st: State, n: Node): (r: State)
    requires Inv(st) && WellFormed(n)
    ensures Inv(r) && Cur(r) == n
    ensures r.(root := st.root) == st
  {
    UpdateWellFormed(st.root, st.current, n);
    var r := st.(root := Update(st.root, st.current, n));
    assert StackChain(r.nodeStack, r.current);
    r
  }

  /** `m_node_stack.push_back(m_current_node)` followed by a move to the
      child `s` of the current node. */
  function Push(st: State, s: Step): (r: State)
    requires Inv(st) && Child(Cur(st), s).Some?
    ensures Inv(r) && Cur(r) == Child(Cur(st), s).value
    ensures r == st.(current := st.current + [s], nodeStack := st.nodeStack + [st.current])
  {
    GetAppend(st.root, st.current, s);
    var c := st.current + [s];
    assert c[..|st.current|] == st.current;
    assert forall i :: 0 <= i < |st.nodeStack| ==> c[..|st.nodeStack[i]|] == st.current[..|st.nodeStack[i]|];
    st.(current := c, nodeStack := st.nodeStack + [st.current])
  }

  /** `m_current_node = m_node_stack.back(); m_node_stack.pop_back();` */
  function Pop(st: State, t: Token): (r: Result<State, ParseError>)
    requires Inv(st)
    ensures r.Ok? <==> |st.nodeStack| > 0
    ensures r.Err? ==> r.error.reason == StackUnderflow
    ensures r.Ok? ==> Inv(r.value)
    ensures r.Ok? ==> r.value == st.(current := st.nodeStack[|st.nodeStack| - 1],
                                     nodeStack := st.nodeStack[..|st.nodeStack| - 1])
  {
    if |st.nodeStack| == 0 then Fail(StackUnderflow, t)
    else
      var c := st.nodeStack[|st.nodeStack| - 1];
      PrefixValid(st.root, st.current, |c|);
      Ok(st.(current := c, nodeStack := st.nodeStack[..|st.nodeStack| - 1]))
  }

  /** The pop of both stacks that the indentation loops perform. */
  function PopBoth(st: State, t: Token): (r: Result<State, ParseError>)
    requires Inv(st)
    ensures r.Ok? <==> |st.nodeStack| > 0 && |st.indentStack| > 0
    ensures r.Err? ==> r.error.reason == StackUnderflow
    ensures r.Ok? ==> Inv(r.value)
    ensures r.Ok? ==> r.value == st.(current := st.nodeStack[|st.nodeStack| - 1],
                                     nodeStack := st.nodeStack[..|st.nodeStack| - 1],
                                     indentStack := st.indentStack[..|st.indentStack| - 1])
  {
    var s :- Pop(st, t);
    if |st.indentStack| == 0 then Fail(StackUnderflow, t)
    else Ok(s.(indentStack := st.indentStack[..|st.indentStack| - 1]))
  }

  /** Appends `n` to the current sequence and makes it the current node,
      pushing the sequence. */
  function AppendAndEnter(st: State, n: Node): (r: State)
    requires Inv(st) && IsSeq(Cur(st)) && WellFormed(n)
    ensures Inv(r) && Cur(r) == n
    ensures r.current == st.current + [Index(|Cur(st).value.items|)]
    ensures r.nodeStack == st.nodeStack + [st.current] && r.indentStack == st.indentStack
    ensures Get(r.root, st.current) == Some(Cur(st).(value := SeqValue(Cur(st).value.items + [n])))
  {
    var cur := Cur(st);
    GetWellFormed(st.root, st.current);
    var s := SetCurrent(st, cur.(value := SeqValue(cur.value.items + [n])));
    Push(s, Index(|cur.value.items|))
  }

  /// Assigning values

  /** The version directive's effect: "1.1" selects YAML 1.1, anything
      else YAML 1.2. */
  function UpdateYamlVersionFrom(s: string): (r: YamlVersion)
    ensures r == Ver11 <==> s == "1.1"
  {
    if s == "1.1" then Ver11 else Ver12
  }

  /** A node as assign_node_value stores it: stamped with the current YAML
      version and carrying the pending anchor, if any. */
  function Attach(st: State, v: Node): (r: Node)
    ensures r.value == v.value && r.version == st.version
    ensures r.anchor == (if st.needsAnchor then Anchor(st.anchorName) else v.anchor)
  {
    var n := v.(version := st.version);
    if st.needsAnchor then n.(anchor := Anchor(st.anchorName)) else n
  }

  /** Records the attached node under the pending anchor's name and clears
      the pending anchor. */
  function Register(st: State, a: Node): State {
    if st.needsAnchor then st.(needsAnchor := false, anchorName := "", anchorTable := st.anchorTable[st.anchorName := a])
    else st
  }

  lemma SameValueWellFormed(n: Node, m: Node)
    requires n.value == m.value && WellFormed(n)
    ensures WellFormed(m)
  {
  }

  /** assign_node_value: a current sequence gets the value appended and
      stays current; any other current node is overwritten and the parser
      moves back to its parent. */
  function AssignNodeValue(st: State, v: Node, t: Token): (r: Result<State, ParseError>)
    requires Inv(st) && WellFormed(v)
    ensures IsSeq(Cur(st)) ==>
      && r.Ok? && Inv(r.value) && r.value.current == st.current
      && Cur(r.value) == Cur(st).(value := SeqValue(Cur(st).value.items + [Attach(st, v)]))
    ensures !IsSeq(Cur(st)) ==> (r.Ok? <==> |st.nodeStack| > 0)
    ensures !IsSeq(Cur(st)) && r.Ok? ==>
      && r.value.root == Update(st.root, st.current, Attach(st, v))
      && r.value.current == st.nodeStack[|st.nodeStack| - 1]
      && r.value.nodeStack == st.nodeStack[..|st.nodeStack| - 1]
    ensures r.Ok? ==> Inv(r.value) && r.value.indentStack == st.indentStack && r.value.version == st.version
    ensures r.Ok? ==> !r.value.needsAnchor
    ensures r.Ok? ==>
      r.value.anchorTable == (if st.needsAnchor then st.anchorTable[st.anchorName := Attach(st, v)] else st.anchorTable)
    ensures r.Ok? ==> r.value.anchorName == (if st.needsAnchor then "" else st.anchorName)
  {
    var a := Attach(st, v);
    SameValueWellFormed(v, a);
    var s := Register(st, a);
    var cur := Cur(st);
    if IsSeq(cur) then
      GetWellFormed(st.root, st.current);
      Ok(SetCurrent(s, cur.(value := SeqValue(cur.value.items + [a]))))
    else
      Pop(SetCurrent(s, a), t)
  }

  /// Keys

  /** std::find over the reversed indent stack: the last position holding
      `x` among the first `n` entries, or `n` when there is none. */
  function LastIndexOf(s: seq<nat>, x: nat, n: nat): (r: nat)
    requires n <= |s|
    ensures r <= n
    ensures r < n ==> s[r] == x
    ensures forall k :: (if r < n then r + 1 else 0) <= k < n ==> s[k] != x
  {
    if n == 0 then 0
    else if s[n - 1] == x then n - 1
    else
      var r := LastIndexOf(s, x, n - 1);
      if r == n - 1 then n else r
  }

  /** The `pop_num` pops of add_new_key, from both stacks. */
  function PopN(st: State, k: nat, t: Token): (r: Result<State, ParseError>)
    requires Inv(st) && k <= |st.indentStack|
    ensures r.Ok? <==> k <= |st.nodeStack|
    ensures r.Err? ==> r.error.reason == StackUnderflow
    ensures r.Ok? ==> Inv(r.value)
    decreases k
  {
    if k == 0 then Ok(st)
    else
      var s :- PopBoth(st, t);
      PopN(s, k - 1, t)
  }

  /** The state with the `k` innermost entries taken off both stacks and
      the outermost of the popped nodes current; everything else as in `st`. */
  function Unwound(st: State, k: nat): State
    requires k <= |st.nodeStack| && k <= |st.indentStack|
  {
    st.(current := if k == 0 then st.current else st.nodeStack[|st.nodeStack| - k],
        nodeStack := st.nodeStack[..|st.nodeStack| - k],
        indentStack := st.indentStack[..|st.indentStack| - k])
  }

  /** Popping `k` entries takes the `k` innermost entries off both stacks,
      leaves the tree and everything else alone, and moves to the outermost
      of the popped nodes. */
  lemma {:induction false} PopNShape(st: State, k: nat, t: Token)
    requires Inv(st) && k <= |st.indentStack| && k <= |st.nodeStack|
    ensures PopN(st, k, t) == Ok(Unwound(st, k))
    decreases k
  {
    if k == 0 {
      assert st.nodeStack[..|st.nodeStack|] == st.nodeStack;
      assert st.indentStack[..|st.indentStack|] == st.indentStack;
    } else {
      var s := PopBoth(st, t).value;
      assert PopN(st, k, t) == PopN(s, k - 1, t);
      PopNShape(s, k - 1, t);
      UnwoundStep(st, s, k);
    }
  }

  /** One pop and then `k - 1` more is `k` pops. */
  lemma UnwoundStep(st: State, s: State, k: nat)
    requires 0 < k <= |st.nodeStack| && k <= |st.indentStack|
    requires s == st.(current := st.nodeStack[|st.nodeStack| - 1],
                      nodeStack := st.nodeStack[..|st.nodeStack| - 1],
                      indentStack := st.indentStack[..|st.indentStack| - 1])
    ensures Unwound(s, k - 1) == Unwound(st, k)
  {
    var l, m := |st.nodeStack|, |st.indentStack|;
    assert s.nodeStack[..l - 1 - (k - 1)] == st.nodeStack[..l - k];
    assert s.indentStack[..m - 1 - (k - 1)] == st.indentStack[..m - k];
  }

  /** The first block of add_new_key: a key indented less than the
      innermost indentation must line up with an indentation on the stack,
      and the stacks are unwound to the last such entry. */
  function PopToIndent(st: State, indent: nat, t: Token): (r: Result<State, ParseError>)
    requires Inv(st)
    ensures r.Ok? ==> Inv(r.value)
    ensures r.Err? ==> r.error.reason == InvalidIndentation || r.error.reason == StackUnderflow
  {
    var ind := st.indentStack;
    if |ind| > 0 && indent < ind[|ind| - 1] then
      var j := LastIndexOf(ind, indent, |ind|);
      if j == |ind| then Fail(InvalidIndentation, t)
      else PopN(st, |ind| - 1 - j, t)
    else Ok(st)
  }

  /** A key at or past the innermost indentation pops nothing; a key
      indented less must equal some indentation on the stack, and exactly
      the entries above the last such one are popped, from both stacks
      alike. */
  lemma PopToIndentMeaning(st: State, indent: nat, t: Token)
    requires Inv(st)
    ensures var ind := st.indentStack;
      var r := PopToIndent(st, indent, t);
      && (|ind| == 0 || indent >= ind[|ind| - 1] ==> r == Ok(st))
      && (|ind| > 0 && indent < ind[|ind| - 1] && indent !in ind ==> r.Err? && r.error.reason == InvalidIndentation)
      && (|ind| > 0 && indent < ind[|ind| - 1] && indent in ind ==>
            (r.Ok? <==> |ind| - 1 - LastIndexOf(ind, indent, |ind|) <= |st.nodeStack|))
      && (r.Ok? ==> CutAtIndent(st, r.value, indent))
  {
    var ind := st.indentStack;
    if |ind| > 0 && indent < ind[|ind| - 1] {
      var j := LastIndexOf(ind, indent, |ind|);
      if j < |ind| {
        var k := |ind| - 1 - j;
        assert PopToIndent(st, indent, t) == PopN(st, k, t);
        if k <= |st.nodeStack| {
          PopNShape(st, k, t);
          UnwoundCut(st, indent, j);
        }
      }
    } else {
      assert PopToIndent(st, indent, t) == Ok(st);
      NothingCut(st, indent);
    }
  }

  /** `u` is `st` with both stacks cut back together to an entry holding
      `indent`, after which `indent` does not occur; the tree is the same. */
  predicate CutAtIndent(st: State, u: State, indent: nat) {
    var ind, s := st.indentStack, u.indentStack;
    && |s| <= |ind| && s == ind[..|s|]
    && (s != ind ==> |s| > 0 && s[|s| - 1] == indent && forall k :: |s| <= k < |ind| ==> ind[k] != indent)
    && |u.nodeStack| <= |st.nodeStack|
    && |st.nodeStack| - |u.nodeStack| == |ind| - |s|
    && u.nodeStack == st.nodeStack[..|u.nodeStack|]
    && u.root == st.root
  }

  /** Unwinding to the last occurrence of `indent` cuts the stacks there. */
  lemma UnwoundCut(st: State, indent: nat, j: nat)
    requires j < |st.indentStack| && st.indentStack[j] == indent
    requires forall k :: j < k < |st.indentStack| ==> st.indentStack[k] != indent
    requires |st.indentStack| - 1 - j <= |st.nodeStack|
    ensures CutAtIndent(st, Unwound(st, |st.indentStack| - 1 - j), indent)
  {
    var u := Unwound(st, |st.indentStack| - 1 - j);
    assert u.indentStack == st.indentStack[..j + 1];
  }

  lemma NothingCut(st: State, indent: nat)
    ensures CutAtIndent(st, st, indent)
  {
    assert st.indentStack[..|st.indentStack|] == st.indentStack;
    assert st.nodeStack[..|st.nodeStack|] == st.nodeStack;
  }

  /** The rest of add_new_key, with the current node in place: the current
      node must be a mapping; a key already present in a non-empty mapping
      is an error; the first key of a mapping pushes its indentation. The
      key is appended with a null value, the mapping is pushed and the new
      value slot becomes the current node. */
  function InsertKey(st: State, key: string, indent: nat, t: Token): (r: Result<State, ParseError>)
    requires Inv(st)
    ensures r.Ok? <==> IsMap(Cur(st)) && !OrderedMap.HasKey(Cur(st).value.entries, key)
    ensures r.Err? && IsMap(Cur(st)) ==> r.error.reason == DuplicateKey
    ensures r.Err? && !IsMap(Cur(st)) ==> r.error.reason == NotAMapping
    ensures r.Ok? ==>
      var entries := Cur(st).value.entries;
      && Inv(r.value)
      && r.value.current == st.current + [Key(key)]
      && Cur(r.value) == Make(NullValue)
      && r.value.nodeStack == st.nodeStack + [st.current]
      && r.value.indentStack == (if |entries| == 0 then st.indentStack + [indent] else st.indentStack)
      && Get(r.value.root, st.current) == Some(Cur(st).(value := MapValue(entries + [(key, Make(NullValue))])))
    ensures r.Ok? ==> r.value == st.(root := r.value.root, current := r.value.current, nodeStack := r.value.nodeStack,
                                     indentStack := r.value.indentStack)
  {
    var cur := Cur(st);
    if !IsMap(cur) then Fail(NotAMapping, t)
    else
      var entries := cur.value.entries;
      if |entries| > 0 && OrderedMap.HasKey(entries, key) then Fail(DuplicateKey, t)
      else
        var s := st.(indentStack := if |entries| == 0 then st.indentStack + [indent] else st.indentStack);
        var entries' := OrderedMap.Emplace(entries, key, Make(NullValue)).entries;
        GetWellFormed(st.root, st.current);
        var s' := SetCurrent(s, cur.(value := MapValue(entries')));
        assert OrderedMap.Find(entries', key) == |entries|;
        Ok(Push(s', Key(key)))
  }

  /** add_new_key: unwinds to the key's indentation, opens a mapping in a
      current sequence, and inserts the key. */
  function AddNewKey(st: State, key: string, indent: nat, t: Token): (r: Result<State, ParseError>)
    requires Inv(st)
    ensures r.Ok? ==> Inv(r.value) && Cur(r.value) == Make(NullValue)
    ensures r.Ok? ==> |r.value.current| > 0 && r.value.current[|r.value.current| - 1] == Key(key)
  {
    var s :- PopToIndent(st, indent, t);
    var s' := if IsSeq(Cur(s)) then AppendAndEnter(s, Make(MapValue([]))) else s;
    InsertKey(s', key, indent, t)
  }

  /** Inside a sequence, a mapping entry starts in a new empty mapping. */
  lemma KeyInSequenceOpensMapping(st: State, key: string, indent: nat, t: Token)
    requires Inv(st) && IsSeq(Cur(st))
    requires |st.indentStack| == 0 || indent >= st.indentStack[|st.indentStack| - 1]
    ensures var r := AddNewKey(st, key, indent, t);
      && r.Ok?
      && r.value.current == st.current + [Index(|Cur(st).value.items|), Key(key)]
      && r.value.nodeStack == st.nodeStack + [st.current, st.current + [Index(|Cur(st).value.items|)]]
      && r.value.indentStack == st.indentStack + [indent]
  {
    var s' := AppendAndEnter(st, Make(MapValue([])));
    assert st.current + [Index(|Cur(st).value.items|)] + [Key(key)]
      == st.current + [Index(|Cur(st).value.items|), Key(key)];
  }

  /// The dispatch loop

  /** The kind of the token after `i`; END_OF_BUFFER past the end. */
  function Peek(ts: seq<Token>, i: nat): TokenKind {
    if i < |ts| then ts[i].kind else EndOfBuffer
  }

  /** The node a scalar token denotes. */
  function ScalarNode(t: Token): (r: Node)
    requires IsScalar(t.kind)
    ensures r.anchor == NoAnchor && r.version == DEFAULT_VERSION
  {
    match t.kind
    case NullScalar => Make(NullValue)
    case BooleanScalar(b) => Make(BoolValue(b))
    case IntegerScalar(i) => Make(IntValue(i))
    case FloatScalar => Make(FloatValue(t.text))
    case StringScalar => Make(StrValue(t.text))
  }

  predicate IsScalar(k: TokenKind) {
    k.NullScalar? || k.BooleanScalar? || k.IntegerScalar? || k.FloatScalar? || k.StringScalar?
  }

  /** A scalar token in a mapping is always a new key. In a sequence the
      next token decides: a key separator or a mapping block prefix makes
      it a key, anything else an item. Elsewhere it is the value of the
      current slot. */
  function ScalarStep(st: State, t: Token, next: TokenKind): (r: Result<State, ParseError>)
    requires Inv(st) && IsScalar(t.kind)
    ensures r.Ok? ==> Inv(r.value)
    ensures IsMap(Cur(st)) ==> r == AddNewKey(st, t.text, t.indent, t)
    ensures IsSeq(Cur(st)) && (next == KeySeparator || next == MappingBlockPrefix) ==>
      r == AddNewKey(st, t.text, t.indent, t)
    ensures IsSeq(Cur(st)) && next != KeySeparator && next != MappingBlockPrefix ==>
      r.Ok? && r.value.current == st.current
      && Cur(r.value).value == SeqValue(Cur(st).value.items + [Attach(st, ScalarNode(t))])
    ensures !IsMap(Cur(st)) && !IsSeq(Cur(st)) ==> r == AssignNodeValue(st, ScalarNode(t), t)
  {
    var cur := Cur(st);
    if IsMap(cur) then AddNewKey(st, t.text, t.indent, t)
    else if IsSeq(cur) && (next == KeySeparator || next == MappingBlockPrefix) then AddNewKey(st, t.text, t.indent, t)
    else AssignNodeValue(st, ScalarNode(t), t)
  }

  /** The loop of the SEQUENCE_BLOCK_PREFIX case: pops both stacks until
      the current node is a sequence at the token's indentation. */
  function PopToSequence(st: State, t: Token): (r: Result<State, ParseError>)
    requires Inv(st)
    ensures r.Ok? ==> Inv(r.value) && IsSeq(Cur(r.value))
    ensures r.Ok? ==> |r.value.indentStack| > 0 && r.value.indentStack[|r.value.indentStack| - 1] == t.indent
    ensures r.Ok? ==> r.value == st.(current := r.value.current, nodeStack := r.value.nodeStack,
                                     indentStack := r.value.indentStack)
    ensures r.Err? ==> r.error.reason == StackUnderflow
    decreases |st.nodeStack|
  {
    var cur := Cur(st);
    if IsSeq(cur) && |st.indentStack| == 0 then Fail(StackUnderflow, t)
    else if IsSeq(cur) && t.indent == st.indentStack[|st.indentStack| - 1] then Ok(st)
    else
      var s :- PopBoth(st, t);
      PopToSequence(s, t)
  }

  /** An empty mapping or sequence stamped with the current version. */
  function NewCollection(st: State, sequence: bool): (r: Node)
    ensures WellFormed(r) && r.version == st.version && r.anchor == NoAnchor
    ensures sequence ==> r.value == SeqValue([])
    ensures !sequence ==> r.value == MapValue([])
  {
    Make(if sequence then SeqValue([]) else MapValue([])).(version := st.version)
  }

  /** SEQUENCE_BLOCK_PREFIX. In an empty sequence it records the
      indentation of the items; in a non-empty one it moves back to the
      sequence at the token's indentation. Anywhere else it needs a
      parent, moves back the same way, and opens a mapping as a new item. */
  function SequenceBlockStep(st: State, t: Token): (r: Result<State, ParseError>)
    requires Inv(st)
    ensures r.Ok? ==> Inv(r.value)
    ensures IsSeq(Cur(st)) && |Cur(st).value.items| == 0 ==>
      r == Ok(st.(indentStack := st.indentStack + [t.indent]))
    ensures !IsSeq(Cur(st)) && |st.nodeStack| == 0 ==> r.Err? && r.error.reason == InvalidSequenceBlockPrefix
    ensures !IsSeq(Cur(st)) && r.Ok? ==> Cur(r.value) == NewCollection(st, false)
    ensures IsSeq(Cur(st)) && |Cur(st).value.items| > 0 ==> r == PopToSequence(st, t)
    ensures !IsSeq(Cur(st)) && |st.nodeStack| > 0 ==>
      var s := PopToSequence(st, t);
      r == (if s.Ok? then Ok(AppendAndEnter(s.value, NewCollection(s.value, false))) else s)
  {
    var cur := Cur(st);
    if IsSeq(cur) then
      if |cur.value.items| == 0 then Ok(st.(indentStack := st.indentStack + [t.indent]))
      else PopToSequence(st, t)
    else if |st.nodeStack| == 0 then Fail(InvalidSequenceBlockPrefix, t)
    else
      var s :- PopToSequence(st, t);
      Ok(AppendAndEnter(s, NewCollection(s, false)))
  }

  /** The structure tokens other than SEQUENCE_BLOCK_PREFIX. A block
      mapping prefix turns the current node into a sequence when the next
      token is a sequence block prefix and into a mapping otherwise. */
  function CollectionStep(st: State, t: Token, next: TokenKind): (r: Result<State, ParseError>)
    requires Inv(st)
    requires t.kind in {SequenceFlowBegin, SequenceFlowEnd, MappingBlockPrefix, MappingFlowBegin, MappingFlowEnd}
    ensures r.Ok? ==> Inv(r.value)
    ensures t.kind == MappingFlowEnd && !IsMap(Cur(st)) ==> r.Err? && r.error.reason == InvalidMappingFlowEnd
    ensures t.kind == MappingFlowEnd && IsMap(Cur(st)) ==> r == Pop(st, t)
    ensures t.kind == SequenceFlowEnd ==> r == Pop(st, t)
    ensures t.kind in {SequenceFlowBegin, MappingBlockPrefix, MappingFlowBegin} ==>
      r.Ok? && r.value.current == st.current && r.value.nodeStack == st.nodeStack
      && Cur(r.value) == NewCollection(st, t.kind == SequenceFlowBegin
                                          || (t.kind == MappingBlockPrefix && next == SequenceBlockPrefix))
  {
    match t.kind
    case SequenceFlowBegin => Ok(SetCurrent(st, NewCollection(st, true)))
    case SequenceFlowEnd => Pop(st, t)
    case MappingBlockPrefix => Ok(SetCurrent(st, NewCollection(st, next == SequenceBlockPrefix)))
    case MappingFlowBegin => Ok(SetCurrent(st, NewCollection(st, false)))
    case MappingFlowEnd =>
      if !IsMap(Cur(st)) then Fail(InvalidMappingFlowEnd, t) else Pop(st, t)
  }

  /** The YAML version directive, which may only appear while the root is
      the current node: it sets the version and stamps it on the root. */
  function VersionStep(st: State, t: Token): (r: Result<State, ParseError>)
    requires Inv(st)
    ensures r.Ok? <==> st.current == []
    ensures r.Ok? ==>
      && Inv(r.value) && r.value.version == UpdateYamlVersionFrom(t.text)
      && r.value.root == st.root.(version := r.value.version) && r.value.current == []
  {
    if st.current != [] then Fail(AssertionViolated, t)
    else
      var s := st.(version := UpdateYamlVersionFrom(t.text));
      SameValueWellFormed(st.root, st.root.(version := s.version));
      Ok(SetCurrent(s, st.root.(version := s.version)))
  }

  /** An alias is replaced by a copy of the node stored under its name,
      which must have been anchored before. */
  function AliasStep(st: State, t: Token): (r: Result<State, ParseError>)
    requires Inv(st)
    ensures t.text !in st.anchorTable ==> r.Err? && r.error.reason == AliasBeforeAnchor
    ensures t.text in st.anchorTable ==> r == AssignNodeValue(st, AliasOf(st.anchorTable[t.text]), t)
    ensures r.Ok? ==> Inv(r.value)
  {
    if t.text !in st.anchorTable then Fail(AliasBeforeAnchor, t)
    else
      SameValueWellFormed(st.anchorTable[t.text], AliasOf(st.anchorTable[t.text]));
      AssignNodeValue(st, AliasOf(st.anchorTable[t.text]), t)
  }

  /** One iteration of the dispatch loop of deserialize, for the token at
      `i`. The lookahead of the scalar cases and of MAPPING_BLOCK_PREFIX
      only peeks at the next token, which the next iteration handles, so
      every iteration consumes exactly one token. */
  function Step(st: State, ts: seq<Token>, i: nat): (r: Result<State, ParseError>)
    requires Inv(st) && i < |ts|
    ensures r.Ok? ==> Inv(r.value)
    ensures ts[i].kind == KeySeparator ==> (r.Ok? <==> |st.nodeStack| > 0) && (r.Ok? ==> r.value == st)
    ensures ts[i].kind == AnchorPrefix ==>
      r == Ok(st.(anchorName := ts[i].text, needsAnchor := true))
    ensures ts[i].kind in {ValueSeparator, CommentPrefix, TagDirective, InvalidDirective, EndOfDirectives, EndOfDocument} ==>
      r == Ok(st)
    ensures ts[i].kind in {EndOfBuffer, ExplicitKeyPrefix, TagPrefix, PlainScalar, SingleQuotedScalar, DoubleQuotedScalar,
                           BlockLiteralScalar, BlockFoldedScalar} ==>
      r.Err? && r.error.reason == UnsupportedToken
    ensures IsScalar(ts[i].kind) ==> r == ScalarStep(st, ts[i], Peek(ts, i + 1))
    ensures ts[i].kind == YamlVerDirective ==> r == VersionStep(st, ts[i])
    ensures ts[i].kind == AliasPrefix ==> r == AliasStep(st, ts[i])
    ensures ts[i].kind == SequenceBlockPrefix ==> r == SequenceBlockStep(st, ts[i])
    ensures ts[i].kind in {SequenceFlowBegin, SequenceFlowEnd, MappingBlockPrefix, MappingFlowBegin, MappingFlowEnd} ==>
      r == CollectionStep(st, ts[i], Peek(ts, i + 1))
  {
    var t := ts[i];
    match t.kind
    case KeySeparator => if |st.nodeStack| == 0 then Fail(KeySeparatorWithoutKey, t) else Ok(st)
    case ValueSeparator => Ok(st)
    case AnchorPrefix => Ok(st.(anchorName := t.text, needsAnchor := true))
    case AliasPrefix => AliasStep(st, t)
    case CommentPrefix => Ok(st)
    case YamlVerDirective => VersionStep(st, t)
    case TagDirective => Ok(st)
    case InvalidDirective => Ok(st)
    case SequenceBlockPrefix => SequenceBlockStep(st, t)
    case SequenceFlowBegin => CollectionStep(st, t, Peek(ts, i + 1))
    case SequenceFlowEnd => CollectionStep(st, t, Peek(ts, i + 1))
    case MappingBlockPrefix => CollectionStep(st, t, Peek(ts, i + 1))
    case MappingFlowBegin => CollectionStep(st, t, Peek(ts, i + 1))
    case MappingFlowEnd => CollectionStep(st, t, Peek(ts, i + 1))
    case NullScalar => ScalarStep(st, t, Peek(ts, i + 1))
    case BooleanScalar(_) => ScalarStep(st, t, Peek(ts, i + 1))
    case IntegerScalar(_) => ScalarStep(st, t, Peek(ts, i + 1))
    case FloatScalar => ScalarStep(st, t, Peek(ts, i + 1))
    case StringScalar => ScalarStep(st, t, Peek(ts, i + 1))
    case EndOfDirectives => Ok(st)
    case EndOfDocument => Ok(st)
    case _ => Fail(UnsupportedToken, t)
  }

  /** The loop from the token at `i` until END_OF_BUFFER or the end of
      the tokens. */
  function Run(st: State, ts: seq<Token>, i: nat): (r: Result<State, ParseError>)
    requires Inv(st) && i <= |ts|
    ensures r.Ok? ==> Inv(r.value)
    decreases |ts| - i
  {
    if i == |ts| || ts[i].kind == EndOfBuffer then Ok(st)
    else
      var s :- Step(st, ts, i);
      Run(s, ts, i + 1)
  }

  /** The state a call of deserialize starts from: an empty mapping as the
      root and current node, and the parser's members as they are. */
  function Start(p: Parser): (r: State)
    requires Reusable(p)
    ensures Inv(r) && r.current == [] && Cur(r) == Make(MapValue([]))
  {
    State(Make(MapValue([])), [], p.nodeStack, p.indentStack, p.version, p.needsAnchor, p.anchorName, p.anchorTable)
  }

  /** deserialize: runs the loop and, on success, clears both stacks, the
      pending anchor and the anchor table before returning the root. The
      version and the anchor name survive into the next call. */
  function Deserialize(p: Parser, ts: seq<Token>): (r: Result<(Node, Parser), ParseError>)
    requires Reusable(p)
    ensures r.Ok? ==> WellFormed(r.value.0) && Reusable(r.value.1)
    ensures r.Ok? <==> Run(Start(p), ts, 0).Ok?
    ensures r.Ok? ==> var run := Run(Start(p), ts, 0);
      run.Ok? && r.value.0 == run.value.root && r.value.1.version == run.value.version
  {
    var st :- Run(Start(p), ts, 0);
    Ok((st.root, Parser([], [], st.version, false, st.anchorName, map[])))
  }

  /// Block mappings

  /** A mapping entry `key: value` in the current mapping, with the key at
      or past the innermost indentation and not yet present: the three
      tokens append the key with the value, stamped and anchored as
      pending, and leave the mapping current with the stacks as they were,
      except that the first key records its indentation. */
  lemma MappingEntry(st: State, ts: seq<Token>, i: nat)
    requires Inv(st) && i + 2 < |ts|
    requires IsScalar(ts[i].kind) && ts[i + 1].kind == KeySeparator && IsScalar(ts[i + 2].kind)
    requires IsMap(Cur(st)) && !OrderedMap.HasKey(Cur(st).value.entries, ts[i].text)
    requires |st.indentStack| == 0 || ts[i].indent >= st.indentStack[|st.indentStack| - 1]
    ensures var entries := Cur(st).value.entries;
      var v := Attach(st, ScalarNode(ts[i + 2]));
      && Step(st, ts, i).Ok?
      && Step(Step(st, ts, i).value, ts, i + 1) == Step(st, ts, i)
      && var r := Step(Step(st, ts, i).value, ts, i + 2);
      && r.Ok?
      && r.value.current == st.current && r.value.nodeStack == st.nodeStack
      && r.value.indentStack == (if |entries| == 0 then st.indentStack + [ts[i].indent] else st.indentStack)
      && Get(r.value.root, st.current) == Some(Cur(st).(value := MapValue(entries + [(ts[i].text, v)])))
      && r.value.version == st.version
  {
    var t := ts[i];
    var s1 := InsertKey(st, t.text, t.indent, t).value;
    EntryKeyStep(st, ts, i);
    assert Step(s1, ts, i + 1) == Ok(s1);
    var v := ScalarNode(ts[i + 2]);
    EntryValueStep(s1, ts, i + 2);
    assert Attach(s1, v) == Attach(st, v);
    var r := AssignNodeValue(s1, v, ts[i + 2]);
    assert !IsSeq(Cur(s1)) && r.Ok?;
    assert r.value.current == st.current;
    assert r.value.nodeStack == (st.nodeStack + [st.current])[..|st.nodeStack|] == st.nodeStack;
    EntryValueWritten(st, s1, t.text, Attach(st, v));
  }

  /** The run loop passes over a mapping entry in one move. */
  lemma MappingEntryRun(st: State, ts: seq<Token>, i: nat)
    requires Inv(st) && i + 2 < |ts|
    requires IsScalar(ts[i].kind) && ts[i + 1].kind == KeySeparator && IsScalar(ts[i + 2].kind)
    requires IsMap(Cur(st)) && !OrderedMap.HasKey(Cur(st).value.entries, ts[i].text)
    requires |st.indentStack| == 0 || ts[i].indent >= st.indentStack[|st.indentStack| - 1]
    ensures var s1 := Step(st, ts, i);
      && s1.Ok?
      && var r := Step(s1.value, ts, i + 2);
      && r.Ok?
      && Run(st, ts, i) == Run(r.value, ts, i + 3)
  {
    MappingEntry(st, ts, i);
    var s1 := Step(st, ts, i).value;
    RunStep(st, ts, i);
    RunStep(s1, ts, i + 1);
    RunStep(s1, ts, i + 2);
  }

  /** The run loop's one move: a token that is not the end is handled
      and the loop goes on after it. */
  lemma RunStep(st: State, ts: seq<Token>, i: nat)
    requires Inv(st) && i < |ts| && ts[i].kind != EndOfBuffer && Step(st, ts, i).Ok?
    ensures Run(st, ts, i) == Run(Step(st, ts, i).value, ts, i + 1)
  {
  }

  lemma EntryKeyStep(st: State, ts: seq<Token>, i: nat)
    requires Inv(st) && i < |ts| && IsScalar(ts[i].kind) && IsMap(Cur(st))
    requires |st.indentStack| == 0 || ts[i].indent >= st.indentStack[|st.indentStack| - 1]
    ensures Step(st, ts, i) == InsertKey(st, ts[i].text, ts[i].indent, ts[i])
  {
    assert PopToIndent(st, ts[i].indent, ts[i]) == Ok(st);
  }

  lemma EntryValueStep(st: State, ts: seq<Token>, i: nat)
    requires Inv(st) && i < |ts| && IsScalar(ts[i].kind) && Cur(st) == Make(NullValue)
    ensures Step(st, ts, i) == AssignNodeValue(st, ScalarNode(ts[i]), ts[i])
  {
    assert !IsMap(Cur(st)) && !IsSeq(Cur(st));
  }

  /** After InsertKey, overwriting the new slot completes the entry. */
  lemma EntryValueWritten(st: State, s1: State, key: string, a: Node)
    requires Inv(st) && IsMap(Cur(st)) && !OrderedMap.HasKey(Cur(st).value.entries, key)
    requires Inv(s1) && s1.current == st.current + [Key(key)]
    requires Get(s1.root, st.current) == Some(Cur(st).(value := MapValue(Cur(st).value.entries + [(key, Make(NullValue))])))
    ensures Get(Update(s1.root, s1.current, a), st.current) ==
      Some(Cur(st).(value := MapValue(Cur(st).value.entries + [(key, a)])))
  {
    var entries := Cur(st).value.entries;
    var n1 := Cur(st).(value := MapValue(entries + [(key, Make(NullValue))]));
    OrderedMap.FindAppended(entries, key, Make(NullValue));
    UpdateLast(s1.root, st.current, Key(key), a);
    assert n1.value.entries[|entries| := (key, a)] == entries + [(key, a)];
  }

  /// Examples

  /** Without tokens the result is the empty mapping the parse starts
      from, unstamped, and a fresh parser stays fresh. */
  lemma EmptyStream()
    ensures Deserialize(Fresh, []) == Ok((Make(MapValue([])), Fresh))
  {
  }

  /** `%YAML 1.1`, `---`, `foo: one`: the version directive stamps the
      root, the value assigned afterwards carries it too, and the parser
      keeps it for its next call. */
  lemma VersionDirectiveExample()
    ensures var r := Deserialize(Fresh, VersionTokens);
      && r.Ok?
      && r.value.0 == Node(MapValue([("foo", Node(StrValue("one"), NoAnchor, Ver11))]), NoAnchor, Ver11)
      && r.value.1.version == Ver11
  {
    var ts := VersionTokens;
    VersionPrologue();
    var s1 := VersionState;
    assert Get(s1.root, []) == Some(s1.root);
    MappingEntry(s1, ts, 2);
    MappingEntryRun(s1, ts, 2);
    var s5 := Step(Step(s1, ts, 2).value, ts, 4).value;
    assert Get(s5.root, []) == Some(s5.root);
    assert Attach(s1, ScalarNode(ts[4])) == Node(StrValue("one"), NoAnchor, Ver11);
    assert [] + [("foo", Node(StrValue("one"), NoAnchor, Ver11))] == [("foo", Node(StrValue("one"), NoAnchor, Ver11))];
    assert Run(s5, ts, 5) == Ok(s5);
  }

  /** The directive and the `---` of the example: an empty mapping root
      stamped with version 1.1. */
  lemma VersionPrologue()
    ensures Inv(VersionState)
    ensures Run(Start(Fresh), VersionTokens, 0) == Run(VersionState, VersionTokens, 2)
  {
    var ts := VersionTokens;
    var s0 := Start(Fresh);
    var s1 := VersionState;
    assert s1 == s0.(root := s0.root.(version := Ver11), version := Ver11);
    assert Step(s0, ts, 0) == Ok(s1);
    assert Step(s1, ts, 1) == Ok(s1);
  }

  const VersionState: State := State(Node(MapValue([]), NoAnchor, Ver11), [], [], [], Ver11, false, "", map[])

  const VersionTokens: seq<Token> :=
    [Token(YamlVerDirective, "1.1", 0, 0), Token(EndOfDirectives, "", 0, 1),
     Token(StringScalar, "foo", 0, 2), Token(KeySeparator, "", 3, 2), Token(StringScalar, "one", 5, 2)]
}
