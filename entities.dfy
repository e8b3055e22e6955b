/** Graph vertices and arcs (graphite.js `Node`, lines 118-196, and `Edge`,
    lines 198-293), and the values their slot maps hold. */
module Entities {
  import opened Slots
  import opened Ids

  /** A non-negative JavaScript number as the shortest-path search uses it:
      a whole number or `Number.POSITIVE_INFINITY`. */
  datatype Dist = Inf | Fin(n: nat)

  /** `a < b` on such numbers. */
  predicate Lt(a: Dist, b: Dist)
  {
    match (a, b)
    case (Fin(x), Fin(y)) => x < y
    case (Fin(_), Inf) => true
    case (Inf, _) => false
  }

  predicate Le(a: Dist, b: Dist)
  {
    a == b || Lt(a, b)
  }

  /** `a + w` with `Infinity + w == Infinity`. */
  function Plus(a: Dist, w: nat): (r: Dist)
    ensures Le(a, r)
    ensures r.Inf? <==> a.Inf?
  {
    match a
    case Inf => Inf
    case Fin(x) => Fin(x + w)
  }

  /** The values the core stores in attribute and meta slots: `null`,
      booleans, numbers, edge references and strings. */
  datatype Value = Null | Bool(b: bool) | Num(d: Dist) | EdgeRef(e: Edge) | Text(s: string)

  /** What JavaScript's `ToNumber` makes of a string, as far as comparing a
      non-negative whole number with it needs: NaN, a signed Infinity, or a
      signed decimal given by its whole part and whether its fraction is
      non-zero. */
  datatype TextNumber = NaN | PosInf | NegInf | Finite(negative: bool, whole: nat, fractional: bool)

  /** The characters `ToNumber` trims from both ends of a string: the white
      space and line terminators of ECMA-262 (sections 12.2 and 12.3). */
  predicate IsSpace(c: char)
  {
    || c in {'\t', '\n', '\U{B}', '\U{C}', '\r', ' ', '\U{A0}', '\U{1680}',
             '\U{2028}', '\U{2029}', '\U{202F}', '\U{205F}', '\U{3000}', '\U{FEFF}'}
    || ('\U{2000}' <= c <= '\U{200A}')
  }

  /** `s` without its leading white space. */
  function TrimStart(s: string): (r: string)
    ensures |r| <= |s| && r == s[|s| - |r|..]
    ensures r == [] || !IsSpace(r[0])
    ensures forall i :: 0 <= i < |s| - |r| ==> IsSpace(s[i])
    decreases |s|
  {
    if s != [] && IsSpace(s[0]) then TrimStart(s[1..]) else s
  }

  /** `s` without its trailing white space. */
  function TrimEnd(s: string): (r: string)
    ensures |r| <= |s| && r == s[..|r|]
    ensures r == [] || !IsSpace(r[|r| - 1])
    ensures forall i :: |r| <= i < |s| ==> IsSpace(s[i])
    decreases |s|
  {
    if s != [] && IsSpace(s[|s| - 1]) then TrimEnd(s[..|s| - 1]) else s
  }

  predicate AllDigits(s: string)
  {
    forall i :: 0 <= i < |s| ==> '0' <= s[i] <= '9'
  }

  predicate AllZeros(s: string)
  {
    forall i :: 0 <= i < |s| ==> s[i] == '0'
  }

  lemma {:induction false} ParseDigits(s: string)
    requires AllDigits(s)
    ensures ParseDecimal(s) >= 0
    decreases |s|
  {
    if s != [] {
      ParseDigits(s[..|s| - 1]);
    }
  }

  /** The first index of `c` in `s`, or `|s|` when there is none. */
  function IndexOf(s: string, c: char): (i: nat)
    ensures i <= |s| && (i < |s| ==> s[i] == c)
    ensures forall j :: 0 <= j < i ==> s[j] != c
    decreases |s|
  {
    if s == [] || s[0] == c then 0 else 1 + IndexOf(s[1..], c)
  }

  /** An unsigned literal: `Infinity`, or digits with at most one `.` and
      at least one digit. Anything else is NaN. */
  function UnsignedNumber(s: string, negative: bool): TextNumber
  {
    if s == "Infinity" then (if negative then NegInf else PosInf)
    else
      var i := IndexOf(s, '.');
      var whole := s[..i];
      var frac := if i < |s| then s[i + 1..] else [];
      if AllDigits(whole) && AllDigits(frac) && |whole| + |frac| > 0 then
        ParseDigits(whole);
        Finite(negative, ParseDecimal(whole), !AllZeros(frac))
      else NaN
  }

  /** `ToNumber(s)`: the trimmed string; empty means 0; then an optional
      sign and an unsigned literal. */
  function ToNumber(s: string): TextNumber
  {
    ReadTrimmed(TrimEnd(TrimStart(s)))
  }

  /** The conversion of an already trimmed string. */
  function ReadTrimmed(t: string): TextNumber
  {
    if t == [] then Finite(false, 0, false)
    else if t[0] == '+' then UnsignedNumber(t[1..], false)
    else if t[0] == '-' then UnsignedNumber(t[1..], true)
    else UnsignedNumber(t, false)
  }

  /** `total < x` for a whole number `total >= 0` and a converted string. */
  predicate TextLess(total: nat, x: TextNumber)
  {
    match x
    case NaN => false
    case PosInf => true
    case NegInf => false
    case Finite(negative, whole, fractional) => !negative && (total < whole || (total == whole && fractional))
  }

  /** JavaScript `total < v` for a number `total` and a slot value `v`
      (`None` is `undefined`): `undefined` and objects compare as NaN, so
      the comparison is false; `null` is 0, booleans are 0 or 1, and a
      string compares as the number `ToNumber` makes of it. */
  predicate NumLessThan(total: nat, v: Option<Value>)
    ensures NumLessThan(total, v) ==> v.Some? && !v.value.Null? && !v.value.EdgeRef?
  {
    match v
    case Some(Num(d)) => Lt(Fin(total), d)
    case Some(Bool(b)) => total < (if b then 1 else 0)
    case Some(Null) => false
    case Some(Text(s)) => TextLess(total, ToNumber(s))
    case _ => false
  }

  /** A string that neither starts nor ends with white space is its own
      trimmed form. */
  lemma Untrimmed(s: string)
    requires s != [] && !IsSpace(s[0]) && !IsSpace(s[|s| - 1])
    ensures TrimEnd(TrimStart(s)) == s
  {
    assert TrimStart(s) == s;
  }

  /** An unsigned, untrimmed string is read as an unsigned literal. */
  lemma ToNumberUnsigned(s: string)
    requires TrimEnd(TrimStart(s)) == s && s != [] && s[0] != '+' && s[0] != '-'
    ensures ToNumber(s) == UnsignedNumber(s, false)
  {
  }

  /** An untrimmed string with a leading `-` is the negated literal after it. */
  lemma ToNumberNegative(s: string)
    requires TrimEnd(TrimStart(s)) == s && s != [] && s[0] == '-'
    ensures ToNumber(s) == UnsignedNumber(s[1..], true)
  {
  }

  /** Digits without a `.` are a whole number. */
  lemma UnsignedWhole(a: string, negative: bool)
    requires a != [] && AllDigits(a)
    ensures ParseDecimal(a) >= 0 && UnsignedNumber(a, negative) == Finite(negative, ParseDecimal(a), false)
  {
    ParseDigits(a);
    assert a != "Infinity" by {
      assert a[0] != 'I';
    }
    DigitsUndotted(a);
    assert a[..|a|] == a;
  }

  /** Digits, a `.` and digits are a number whose fraction is non-zero
      exactly when some digit after the `.` is not `0`. */
  lemma UnsignedFraction(a: string, b: string, negative: bool)
    requires a != [] && AllDigits(a) && AllDigits(b)
    ensures ParseDecimal(a) >= 0 && UnsignedNumber(a + "." + b, negative) == Finite(negative, ParseDecimal(a), !AllZeros(b))
  {
    ParseDigits(a);
    var t := a + "." + b;
    assert t != "Infinity" by {
      assert t[0] == a[0] != 'I';
    }
    DotAfterDigits(a, b);
    assert t[..|a|] == a && t[|a| + 1..] == b;
  }

  /** `String(n)` converts back to `n`. */
  lemma ToNumberDecimal(n: nat)
    ensures ToNumber(Decimal(n)) == Finite(false, n, false)
  {
    var s := Decimal(n);
    DigitsUntrimmed(s);
    ToNumberUnsigned(s);
    UnsignedWhole(s, false);
    DecimalRoundTrip(n);
  }

  /** Digits are not white space, so trimming keeps a digit string. */
  lemma DigitsUntrimmed(s: string)
    requires s != [] && AllDigits(s)
    ensures TrimEnd(TrimStart(s)) == s && s[0] != '+' && s[0] != '-'
  {
    assert !IsSpace(s[0]) && !IsSpace(s[|s| - 1]);
    Untrimmed(s);
  }

  /** A digit string holds no `.`. */
  lemma DigitsUndotted(s: string)
    requires AllDigits(s)
    ensures IndexOf(s, '.') == |s|
  {
  }

  /** A string of white space alone compares as 0. */
  lemma ToNumberBlank(s: string)
    requires forall i :: 0 <= i < |s| ==> IsSpace(s[i])
    ensures ToNumber(s) == Finite(false, 0, false)
  {
    assert TrimStart(s) == [];
  }

  /** Leading white space is skipped up to the first other character. */
  lemma {:induction false} TrimStartSkips(pre: string, rest: string)
    requires forall i :: 0 <= i < |pre| ==> IsSpace(pre[i])
    requires rest == [] || !IsSpace(rest[0])
    ensures TrimStart(pre + rest) == rest
    decreases |pre|
  {
    if pre == [] {
      assert pre + rest == rest;
    } else {
      assert (pre + rest)[1..] == pre[1..] + rest;
      TrimStartSkips(pre[1..], rest);
    }
  }

  /** Trailing white space is dropped back to the last other character. */
  lemma {:induction false} TrimEndSkips(rest: string, post: string)
    requires forall i :: 0 <= i < |post| ==> IsSpace(post[i])
    requires rest == [] || !IsSpace(rest[|rest| - 1])
    ensures TrimEnd(rest + post) == rest
    decreases |post|
  {
    if post == [] {
      assert rest + post == rest;
    } else {
      assert (rest + post)[..|rest + post| - 1] == rest + post[..|post| - 1];
      TrimEndSkips(rest, post[..|post| - 1]);
    }
  }

  /** Surrounding white space is ignored: a padded decimal string still
      converts to its number. */
  lemma PaddedDecimal(pre: string, n: nat, post: string)
    requires forall i :: 0 <= i < |pre| ==> IsSpace(pre[i])
    requires forall i :: 0 <= i < |post| ==> IsSpace(post[i])
    ensures ToNumber(pre + Decimal(n) + post) == Finite(false, n, false)
  {
    PaddedDigits(pre, Decimal(n), post);
    ToNumberDecimal(n);
  }

  /** White space around a digit string is trimmed away. */
  lemma PaddedDigits(pre: string, d: string, post: string)
    requires forall i :: 0 <= i < |pre| ==> IsSpace(pre[i])
    requires forall i :: 0 <= i < |post| ==> IsSpace(post[i])
    requires d != [] && AllDigits(d)
    ensures ToNumber(pre + d + post) == ToNumber(d)
  {
    var tail := d + post;
    assert tail[0] == d[0];
    assert !IsSpace(d[0]) && !IsSpace(d[|d| - 1]);
    assert pre + d + post == pre + tail;
    TrimStartSkips(pre, tail);
    TrimEndSkips(d, post);
    DigitsUntrimmed(d);
  }

  /** `String(n) + "." + String(m)` has whole part `n` and a non-zero
      fraction exactly when `m` is not 0. */
  lemma FractionDecimal(n: nat, m: nat)
    ensures ToNumber(Decimal(n) + "." + Decimal(m)) == Finite(false, n, m != 0)
  {
    FractionDigits(Decimal(n), Decimal(m));
    DecimalRoundTrip(n);
    DecimalZeros(m);
  }

  /** `n` is below `String(n) + "." + String(m)` exactly when `m` is not 0
      (`2 < "2.5"`), and `n + 1` never is (`3 < "2.5"` is false). */
  lemma FractionCompares(n: nat, m: nat)
    ensures NumLessThan(n, Some(Text(Decimal(n) + "." + Decimal(m)))) <==> m != 0
    ensures !NumLessThan(n + 1, Some(Text(Decimal(n) + "." + Decimal(m))))
  {
    var t := Decimal(n) + "." + Decimal(m);
    FractionDecimal(n, m);
    CompareFinite(n, t, n, m != 0);
    CompareFinite(n + 1, t, n, m != 0);
  }

  /** A string that reads as a non-negative finite number compares as it. */
  lemma CompareFinite(total: nat, s: string, whole: nat, fractional: bool)
    requires ToNumber(s) == Finite(false, whole, fractional)
    ensures NumLessThan(total, Some(Text(s))) <==> total < whole || (total == whole && fractional)
  {
  }

  /** Digits, a `.` and digits, with nothing around them. */
  lemma FractionDigits(a: string, b: string)
    requires a != [] && b != [] && AllDigits(a) && AllDigits(b)
    ensures ParseDecimal(a) >= 0
    ensures ToNumber(a + "." + b) == Finite(false, ParseDecimal(a), !AllZeros(b))
  {
    var t := a + "." + b;
    assert t[0] == a[0] && t[|t| - 1] == b[|b| - 1];
    assert !IsSpace(t[0]) && !IsSpace(t[|t| - 1]);
    Untrimmed(t);
    ToNumberUnsigned(t);
    UnsignedFraction(a, b, false);
  }

  /** The first `.` after a digit string is the one right after it. */
  lemma DotAfterDigits(a: string, b: string)
    requires AllDigits(a)
    ensures IndexOf(a + "." + b, '.') == |a|
  {
    var t := a + "." + b;
    assert forall j :: 0 <= j < |a| ==> t[j] == a[j];
    assert t[|a|] == '.';
  }

  /** The digits of `m` are all zeros exactly when `m` is 0. */
  lemma {:induction false} DecimalZeros(m: nat)
    ensures AllZeros(Decimal(m)) <==> m == 0
    decreases m
  {
    var s := Decimal(m);
    if m >= 10 {
      DecimalZeros(m / 10);
      var p := Decimal(m / 10);
      assert s == p + [Digit(m % 10)];
      assert m / 10 != 0;
      var k :| 0 <= k < |p| && p[k] != '0';
      assert s[k] == p[k];
    } else {
      assert s == [Digit(m)];
      assert AllZeros(s) <==> s[0] == '0';
    }
  }

  /** A negative decimal string is below every total. */
  lemma NegativeText(total: nat, n: nat)
    ensures ToNumber("-" + Decimal(n)) == Finite(true, n, false)
    ensures !NumLessThan(total, Some(Text("-" + Decimal(n))))
  {
    var d := Decimal(n);
    NegativeDigits(d);
    DecimalRoundTrip(n);
    assert ToNumber("-" + d) == Finite(true, n, false);
    assert !TextLess(total, ToNumber("-" + d));
  }

  /** A `-` and digits, with nothing around them. */
  lemma NegativeDigits(d: string)
    requires d != [] && AllDigits(d)
    ensures ParseDecimal(d) >= 0
    ensures ToNumber("-" + d) == Finite(true, ParseDecimal(d), false)
  {
    var t := "-" + d;
    assert t[0] == '-' && t[|t| - 1] == d[|d| - 1] && t[1..] == d;
    assert !IsSpace(t[0]) && !IsSpace(t[|t| - 1]);
    Untrimmed(t);
    ToNumberNegative(t);
    UnsignedWhole(d, true);
  }

  /** A word converts to NaN, so no total is below it. */
  lemma WordText(total: nat, s: string)
    requires s != [] && 'a' <= s[0] <= 'z' && !IsSpace(s[|s| - 1])
    ensures ToNumber(s) == NaN
    ensures !NumLessThan(total, Some(Text(s)))
  {
    assert !IsSpace(s[0]);
    Untrimmed(s);
    ToNumberUnsigned(s);
    assert s != "Infinity" by {
      assert "Infinity"[0] == 'I';
    }
    var i := IndexOf(s, '.');
    assert i > 0 && s[..i][0] == s[0];
  }

  /** A slot holding the digits of `n` compares as `n`: `3 < "100"` is
      true and `300 < "100"` is false. */
  lemma NumLessThanDigits(total: nat, n: nat)
    ensures NumLessThan(total, Some(Text(Decimal(n)))) <==> total < n
  {
    ToNumberDecimal(n);
  }

  class Node {
    const id: string
    var attrs: map<string, Value>
    var meta: map<string, Value>

    /** `new Node(attrs)`: takes the next `Node_<n>` id from the allocator;
        a missing attribute object becomes an empty one, meta starts empty. */
    constructor (initial: Option<map<string, Value>>, ids: IdCache)
      modifies ids
      ensures ids.counts == old(ids.counts)["Node" := Count(old(ids.counts), "Node") + 1]
      ensures id == MakeId("Node", ids.counts["Node"]) && id !in old(ids.Issued())
      ensures attrs == (if initial.Some? then initial.value else map[])
      ensures meta == map[]
    {
      var newId := ids.GenerateId("Node");
      id := newId;
      attrs := if initial.Some? then initial.value else map[];
      meta := map[];
    }

    /** `attr(key, value)`: writes the slot when a value is given and
        returns the slot's (new) value. */
    method Attr(key: string, value: Option<Value>) returns (r: Option<Value>)
      modifies this`attrs
      ensures attrs == Write(old(attrs), key, value) && meta == old(meta)
      ensures r == Lookup(attrs, key)
      ensures value.Some? ==> r == value
    {
      var (m, v) := Slots.Attr(attrs, key, value);
      attrs := m;
      r := v;
    }

    method RemoveAttr(key: string)
      modifies this`attrs
      ensures attrs == Remove(old(attrs), key) && meta == old(meta)
      ensures Lookup(attrs, key) == None
    {
      attrs := Remove(attrs, key);
    }

    method Meta(key: string, value: Option<Value>) returns (r: Option<Value>)
      modifies this`meta
      ensures meta == Write(old(meta), key, value) && attrs == old(attrs)
      ensures r == Lookup(meta, key)
      ensures value.Some? ==> r == value
    {
      var (m, v) := Slots.Attr(meta, key, value);
      meta := m;
      r := v;
    }

    method RemoveMeta(key: string)
      modifies this`meta
      ensures meta == Remove(old(meta), key) && attrs == old(attrs)
      ensures Lookup(meta, key) == None
    {
      meta := Remove(meta, key);
    }

    /** `resetMeta()`: replaces the meta object with an empty one. */
    method ResetMeta()
      modifies this`meta
      ensures meta == map[] && attrs == old(attrs)
      ensures forall k :: Lookup(meta, k) == None
    {
      meta := map[];
    }
  }

  class Edge {
    const id: string
    const from: Node
    const to: Node
    var attrs: map<string, Value>
    var meta: map<string, Value>

    /** `new Edge(from, to, attrs)`: the endpoints are fixed for the edge's
        lifetime (`getFromNode`, `getToNode`). */
    constructor (from: Node, to: Node, initial: Option<map<string, Value>>, ids: IdCache)
      modifies ids
      ensures ids.counts == old(ids.counts)["Edge" := Count(old(ids.counts), "Edge") + 1]
      ensures id == MakeId("Edge", ids.counts["Edge"]) && id !in old(ids.Issued())
      ensures this.from == from && this.to == to
      ensures attrs == (if initial.Some? then initial.value else map[])
      ensures meta == map[]
    {
      var newId := ids.GenerateId("Edge");
      id := newId;
      this.from := from;
      this.to := to;
      attrs := if initial.Some? then initial.value else map[];
      meta := map[];
    }

    method Attr(key: string, value: Option<Value>) returns (r: Option<Value>)
      modifies this`attrs
      ensures attrs == Write(old(attrs), key, value) && meta == old(meta)
      ensures r == Lookup(attrs, key)
      ensures value.Some? ==> r == value
    {
      var (m, v) := Slots.Attr(attrs, key, value);
      attrs := m;
      r := v;
    }

    method RemoveAttr(key: string)
      modifies this`attrs
      ensures attrs == Remove(old(attrs), key) && meta == old(meta)
      ensures Lookup(attrs, key) == None
    {
      attrs := Remove(attrs, key);
    }

    method Meta(key: string, value: Option<Value>) returns (r: Option<Value>)
      modifies this`meta
      ensures meta == Write(old(meta), key, value) && attrs == old(attrs)
      ensures r == Lookup(meta, key)
      ensures value.Some? ==> r == value
    {
      var (m, v) := Slots.Attr(meta, key, value);
      meta := m;
      r := v;
    }

    method RemoveMeta(key: string)
      modifies this`meta
      ensures meta == Remove(old(meta), key) && attrs == old(attrs)
      ensures Lookup(meta, key) == None
    {
      meta := Remove(meta, key);
    }

    method ResetMeta()
      modifies this`meta
      ensures meta == map[] && attrs == old(attrs)
      ensures forall k :: Lookup(meta, k) == None
    {
      meta := map[];
    }
  }
}
