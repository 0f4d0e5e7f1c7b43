/** Typed extraction of a node's value (include/fkYAML/from_node.hpp): each
    overload checks the node's kind, then hands out the value; the overload
    for integer types other than the node's own std::int64_t checks the range
    of the target type first. */
module FromNode {
  import opened Wrappers
  import opened YamlNode
  import OrderedMap

  datatype ConversionError = TypeMismatch(expected: NodeType) | Underflow | Overflow

  /** `from_node(n, sequence_type&)`. */
  function ToSequence(n: Node): (r: Result<seq<Node>, ConversionError>)
    ensures r.Ok? <==> TypeOf(n) == Sequence
    ensures r.Ok? ==> n.value == SeqValue(r.value)
    ensures r.Err? ==> r.error == TypeMismatch(Sequence)
  {
    if n.value.SeqValue? then Ok(n.value.items) else Err(TypeMismatch(Sequence))
  }

  /** Emplaces the given entries one after the other, front to back. */
  function EmplaceAll(m: OrderedMap.OMap<string, Node>, es: OrderedMap.OMap<string, Node>): (r: OrderedMap.OMap<string, Node>)
    ensures |m| <= |r| && r[..|m|] == m
    ensures forall i :: 0 <= i < |es| ==> OrderedMap.HasKey(r, es[i].0)
    ensures forall i :: |m| <= i < |r| ==> r[i] in es
    ensures OrderedMap.UniqueKeys(m) ==> OrderedMap.UniqueKeys(r)
    decreases |es|
  {
    if |es| == 0 then m
    else
      var r0 := EmplaceAll(m, es[..|es| - 1]);
      var r := OrderedMap.Emplace(r0, es[|es| - 1].0, es[|es| - 1].1).entries;
      assert forall i :: 0 <= i < |es| - 1 ==> OrderedMap.HasKey(r, es[i].0) by {
        forall i | 0 <= i < |es| - 1
          ensures OrderedMap.HasKey(r, es[i].0)
        {
          assert es[..|es| - 1][i] == es[i];
          var j :| 0 <= j < |r0| && r0[j].0 == es[i].0;
          assert r[j] == r0[j];
        }
      }
      assert forall i :: |m| <= i < |r0| ==> r0[i] in es by {
        forall i | |m| <= i < |r0|
          ensures r0[i] in es
        {
          assert r0[i] in es[..|es| - 1];
        }
      }
      r
  }

  /** `from_node(n, mapping_type&)`: every (key, value) of the node is
      emplaced into the target map, which keeps the entries it already has. */
  function ToMapping(n: Node, target: OrderedMap.OMap<string, Node>): (r: Result<OrderedMap.OMap<string, Node>, ConversionError>)
    ensures r.Ok? <==> TypeOf(n) == Mapping
    ensures r.Ok? ==> r.value == EmplaceAll(target, n.value.entries)
    ensures r.Err? ==> r.error == TypeMismatch(Mapping)
  {
    if n.value.MapValue? then Ok(EmplaceAll(target, n.value.entries)) else Err(TypeMismatch(Mapping))
  }

  /** As finite maps, extracting a mapping is a union in which the target's
      own entries take precedence over the node's. */
  lemma {:induction false} EmplaceAllIsUnion(m: OrderedMap.OMap<string, Node>, es: OrderedMap.OMap<string, Node>)
    requires OrderedMap.UniqueKeys(es)
    ensures OrderedMap.ToMap(EmplaceAll(m, es)) == OrderedMap.ToMap(es) + OrderedMap.ToMap(m)
    decreases |es|
  {
    if |es| > 0 {
      var init := es[..|es| - 1];
      var (k, v) := es[|es| - 1];
      var r0 := EmplaceAll(m, init);
      EmplaceAllIsUnion(m, init);
      OrderedMap.EmplaceMatchesMap(r0, k, v);
      OrderedMap.ToMapKeys(init, k);
      InsertBelowUnion(OrderedMap.ToMap(init), OrderedMap.ToMap(m), k, v);
    }
  }

  /** Inserting a key absent from both sides into a union, unless the right
      side already has it, is inserting it into the left side. */
  lemma InsertBelowUnion<K, V>(a: map<K, V>, b: map<K, V>, k: K, v: V)
    requires k !in a
    ensures (if k in a + b then a + b else (a + b)[k := v]) == a[k := v] + b
  {
  }

  /** `from_node(n, std::nullptr_t&)`. */
  function ToNull(n: Node): (r: Result<(), ConversionError>)
    ensures r.Ok? <==> TypeOf(n) == NullObject
    ensures r.Err? ==> r.error == TypeMismatch(NullObject)
  {
    if n.value.NullValue? then Ok(()) else Err(TypeMismatch(NullObject))
  }

  /** `from_node(n, boolean_type&)`. */
  function ToBoolean(n: Node): (r: Result<bool, ConversionError>)
    ensures r.Ok? <==> TypeOf(n) == Boolean
    ensures r.Ok? ==> n.value == BoolValue(r.value)
    ensures r.Err? ==> r.error == TypeMismatch(Boolean)
  {
    if n.value.BoolValue? then Ok(n.value.b) else Err(TypeMismatch(Boolean))
  }

  /** `from_node(n, integer_type&)` for the node's own integer type. */
  function ToInteger(n: Node): (r: Result<int64, ConversionError>)
    ensures r.Ok? <==> TypeOf(n) == Integer
    ensures r.Ok? ==> n.value == IntValue(r.value)
    ensures r.Err? ==> r.error == TypeMismatch(Integer)
  {
    if n.value.IntValue? then Ok(n.value.i) else Err(TypeMismatch(Integer))
  }

  /** `from_node(n, string_type&)`. */
  function ToStringValue(n: Node): (r: Result<string, ConversionError>)
    ensures r.Ok? <==> TypeOf(n) == String
    ensures r.Ok? ==> n.value == StrValue(r.value)
    ensures r.Err? ==> r.error == TypeMismatch(String)
  {
    if n.value.StrValue? then Ok(n.value.s) else Err(TypeMismatch(String))
  }

  /** A C++ integer type other than std::int64_t: its width and signedness. */
  datatype IntegerType = IntegerType(bits: nat, signed: bool)

  predicate ValidIntegerType(t: IntegerType) {
    t.bits == 8 || t.bits == 16 || t.bits == 32 || t.bits == 64
  }

  function Pow2(k: nat): (r: nat)
    ensures r >= 1
  {
    if k == 0 then 1 else 2 * Pow2(k - 1)
  }

  /** `std::numeric_limits<T>::min()` */
  function MinOf(t: IntegerType): int
    requires ValidIntegerType(t)
  {
    if t.signed then -(Pow2(t.bits - 1) as int) else 0
  }

  /** `std::numeric_limits<T>::max()` */
  function MaxOf(t: IntegerType): int
    requires ValidIntegerType(t)
  {
    if t.signed then Pow2(t.bits - 1) - 1 else Pow2(t.bits) - 1
  }

  /** `static_cast<std::int64_t>(x)`: two's-complement wrap-around. */
  function CastToInt64(x: int): (r: int64)
    ensures INT64_MIN <= x <= INT64_MAX ==> r == x
    ensures (r - x) % 0x1_0000_0000_0000_0000 == 0
  {
    (x - INT64_MIN) % 0x1_0000_0000_0000_0000 + INT64_MIN
  }

  /** The narrowing overload as written: both limits of the target type are
      first cast to std::int64_t, then compared with the node's value. */
  function ToNarrowIntegerAsWritten(n: Node, t: IntegerType): (r: Result<int, ConversionError>)
    requires ValidIntegerType(t)
    ensures r.Ok? ==> TypeOf(n) == Integer && r.value == n.value.i
    ensures TypeOf(n) != Integer ==> r == Err(TypeMismatch(Integer))
  {
    if !n.value.IntValue? then Err(TypeMismatch(Integer))
    else
      var x := n.value.i;
      if x < CastToInt64(MinOf(t)) then Err(Underflow)
      else if CastToInt64(MaxOf(t)) < x then Err(Overflow)
      else Ok(x)
  }

  /** For a 64-bit unsigned target the cast turns the maximum 2^64 - 1 into
      -1, so every non-negative value is reported as an overflow. */
  lemma UnsignedSixtyFourAlwaysOverflows(x: int64)
    requires x >= 0
    ensures ToNarrowIntegerAsWritten(Make(IntValue(x)), IntegerType(64, false)) == Err(Overflow)
  {
    Pow2Large();
    assert MaxOf(IntegerType(64, false)) == 0xFFFF_FFFF_FFFF_FFFF;
    assert CastToInt64(0xFFFF_FFFF_FFFF_FFFF) == -1;
  }

  lemma {:induction false} PowAdd(a: nat, b: nat)
    ensures Pow2(a + b) == Pow2(a) * Pow2(b)
    decreases a
  {
    if a > 0 {
      PowAdd(a - 1, b);
    }
  }

  lemma Pow2Small()
    ensures Pow2(7) == 0x80 && Pow2(8) == 0x100 && Pow2(15) == 0x8000 && Pow2(16) == 0x1_0000
  {
    assert Pow2(7) == 0x80;
    assert Pow2(8) == 0x100;
    PowAdd(7, 8);
    PowAdd(8, 8);
  }

  lemma Pow2Middle()
    ensures Pow2(31) == 0x8000_0000 && Pow2(32) == 0x1_0000_0000
  {
    Pow2Small();
    PowAdd(15, 16);
    PowAdd(16, 16);
  }

  lemma Pow2Large()
    ensures Pow2(63) == 0x8000_0000_0000_0000 && Pow2(64) == 0x1_0000_0000_0000_0000
  {
    Pow2Middle();
    PowAdd(31, 32);
    PowAdd(32, 32);
  }

  lemma LimitsFitInt64(t: IntegerType)
    requires ValidIntegerType(t)
    requires t.signed || t.bits < 64
    ensures INT64_MIN <= MinOf(t) && MaxOf(t) <= INT64_MAX
  {
    Pow2Small();
    Pow2Middle();
    Pow2Large();
  }

  /** The narrowing overload with the range check its messages describe:
      values below the target's minimum underflow, values above its maximum
      overflow, and anything in between is handed out unchanged. */
  function ToNarrowInteger(n: Node, t: IntegerType): (r: Result<int, ConversionError>)
    requires ValidIntegerType(t)
    ensures TypeOf(n) != Integer ==> r == Err(TypeMismatch(Integer))
    ensures TypeOf(n) == Integer ==>
      && (r == Err(Underflow) <==> n.value.i < MinOf(t))
      && (r == Err(Overflow) <==> MaxOf(t) < n.value.i)
      && (r.Ok? <==> MinOf(t) <= n.value.i <= MaxOf(t))
    ensures r.Ok? ==> r.value == n.value.i
  {
    if !n.value.IntValue? then Err(TypeMismatch(Integer))
    else
      var x := n.value.i;
      if x < MinOf(t) then Err(Underflow)
      else if MaxOf(t) < x then Err(Overflow)
      else Ok(x)
  }

  /** The two agree on every target type whose limits fit in std::int64_t,
      that is on every type except the 64-bit unsigned ones. */
  lemma NarrowingAgreesBelowSixtyFourUnsigned(n: Node, t: IntegerType)
    requires ValidIntegerType(t)
    requires t.signed || t.bits < 64
    ensures ToNarrowIntegerAsWritten(n, t) == ToNarrowInteger(n, t)
  {
    LimitsFitInt64(t);
  }
}
