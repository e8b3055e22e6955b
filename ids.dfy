/** Entity identifiers (graphite.js `generateID`, lines 53-67) and the
    order in which the graph compares them: JavaScript's `<` on strings. */
module Ids {

  /** JavaScript `a < b` on two strings: lexicographic order of the
      characters, where a proper prefix comes first. */
  function LexLess(a: string, b: string): bool
    decreases |a|
  {
    if |a| == 0 then |b| > 0
    else if |b| == 0 then false
    else if a[0] != b[0] then a[0] < b[0]
    else LexLess(a[1..], b[1..])
  }

  lemma {:induction false} LexLessIrreflexive(a: string)
    ensures !LexLess(a, a)
    decreases |a|
  {
    if |a| > 0 {
      LexLessIrreflexive(a[1..]);
    }
  }

  /** Exactly one of `a < b`, `a == b`, `b < a` holds. */
  lemma {:induction false} LexLessTrichotomy(a: string, b: string)
    ensures a == b || LexLess(a, b) || LexLess(b, a)
    ensures !(LexLess(a, b) && LexLess(b, a))
    decreases |a|
  {
    if |a| > 0 && |b| > 0 && a[0] == b[0] {
      LexLessTrichotomy(a[1..], b[1..]);
      if a[1..] == b[1..] {
        assert a == [a[0]] + a[1..] && b == [b[0]] + b[1..];
      }
    }
  }

  lemma {:induction false} LexLessTransitive(a: string, b: string, c: string)
    requires LexLess(a, b) && LexLess(b, c)
    ensures LexLess(a, c)
    decreases |a|
  {
    if |a| > 0 && a[0] == b[0] && b[0] == c[0] {
      LexLessTransitive(a[1..], b[1..], c[1..]);
    }
  }

  /** The ids the allocator issues are not ordered by their counter:
      the tenth node sorts before the second. */
  lemma NumericSuffixOrder()
    ensures LexLess("Node_10", "Node_2") && !LexLess("Node_2", "Node_10")
  {
  }

  function Digit(d: nat): char
    requires d < 10
  {
    (48 + d) as char
  }

  /** JavaScript's `String(n)` for a non-negative integer. */
  function Decimal(n: nat): (s: string)
    ensures |s| > 0
    ensures forall i :: 0 <= i < |s| ==> '0' <= s[i] <= '9'
    decreases n
  {
    if n < 10 then [Digit(n)] else Decimal(n / 10) + [Digit(n % 10)]
  }

  /** Reads a string of decimal digits back as a number. */
  function ParseDecimal(s: string): int
    decreases |s|
  {
    if |s| == 0 then 0 else ParseDecimal(s[..|s| - 1]) * 10 + (s[|s| - 1] as int - 48)
  }

  lemma {:induction false} DecimalRoundTrip(n: nat)
    ensures ParseDecimal(Decimal(n)) == n
    decreases n
  {
    if n >= 10 {
      DecimalRoundTrip(n / 10);
      var s := Decimal(n);
      assert s[..|s| - 1] == Decimal(n / 10);
    }
  }

  lemma DecimalInjective(n: nat, m: nat)
    requires Decimal(n) == Decimal(m)
    ensures n == m
  {
    DecimalRoundTrip(n);
    DecimalRoundTrip(m);
  }

  /** The id `generateID` builds from a type name and a counter value. */
  function MakeId(objType: string, n: nat): string
  {
    objType + "_" + Decimal(n)
  }

  /** An id determines the type name and the counter it was built from:
      the counter's digits hold no underscore, so the last one splits them. */
  lemma MakeIdInjective(t1: string, n1: nat, t2: string, n2: nat)
    requires MakeId(t1, n1) == MakeId(t2, n2)
    ensures t1 == t2 && n1 == n2
  {
    var s := MakeId(t1, n1);
    var d1, d2 := Decimal(n1), Decimal(n2);
    assert s == t1 + "_" + d1 && s == t2 + "_" + d2;
    if |d1| < |d2| {
      IdCharAt(t1, d1, t2, d2);
      assert false;
    } else if |d2| < |d1| {
      IdCharAt(t2, d2, t1, d1);
      assert false;
    }
    assert d1 == s[|s| - |d1|..] == d2;
    assert t1 == s[..|t1|] == t2;
    DecimalInjective(n1, n2);
  }

  /** Where two ids overlap: the underscore of the one with the shorter
      counter falls inside the other's counter digits. */
  lemma IdCharAt(t1: string, d1: string, t2: string, d2: string)
    ensures t1 + "_" + d1 == t2 + "_" + d2 && |d1| < |d2| ==>
      (t1 + "_" + d1)[|t1|] == '_' && (t2 + "_" + d2)[|t1|] == d2[|t1| - |t2| - 1]
  {
  }

  function Count(counts: map<string, nat>, objType: string): nat
  {
    if objType in counts then counts[objType] else 0
  }

  /** Every id issued so far for the counters in `counts`. */
  ghost function IssuedBy(counts: map<string, nat>): set<string>
  {
    set t, n: nat | t in counts && 1 <= n <= counts[t] :: MakeId(t, n)
  }

  /** Bumping one counter issues exactly one new id, never seen before. */
  lemma IssuedAfterBump(counts: map<string, nat>, objType: string)
    ensures MakeId(objType, Count(counts, objType) + 1) !in IssuedBy(counts)
    ensures IssuedBy(counts[objType := Count(counts, objType) + 1])
         == IssuedBy(counts) + {MakeId(objType, Count(counts, objType) + 1)}
  {
    var c := Count(counts, objType);
    var id := MakeId(objType, c + 1);
    if id in IssuedBy(counts) {
      var t, n: nat :| t in counts && 1 <= n <= counts[t] && MakeId(t, n) == id;
      MakeIdInjective(t, n, objType, c + 1);
      assert false;
    }
    var after := counts[objType := c + 1];
    forall x | x in IssuedBy(after)
      ensures x in IssuedBy(counts) + {id}
    {
      var t, n: nat :| t in after && 1 <= n <= after[t] && MakeId(t, n) == x;
      if t != objType || n != c + 1 {
        assert t in counts && n <= counts[t];
      }
    }
    forall x | x in IssuedBy(counts) + {id}
      ensures x in IssuedBy(after)
    {
      if x != id {
        var t, n: nat :| t in counts && 1 <= n <= counts[t] && MakeId(t, n) == x;
        assert t in after && n <= after[t];
      } else {
        assert objType in after && c + 1 <= after[objType];
      }
    }
  }

  /** The process-wide `__idCache`: one counter per object type. */
  class IdCache {
    var counts: map<string, nat>

    constructor ()
      ensures counts == map[]
    {
      counts := map[];
    }

    ghost function Issued(): set<string>
      reads this
    {
      IssuedBy(counts)
    }

    /** `generateID(objType)`: bumps the type's counter (starting from 0)
        and returns `objType + '_' + counter`; no id is issued twice. */
    method GenerateId(objType: string) returns (id: string)
      modifies this
      ensures counts == old(counts)[objType := Count(old(counts), objType) + 1]
      ensures id == MakeId(objType, counts[objType])
      ensures id !in old(Issued())
      ensures Issued() == old(Issued()) + {id}
    {
      IssuedAfterBump(counts, objType);
      if objType !in counts {
        counts := counts[objType := 0];
      }
      counts := counts[objType := counts[objType] + 1];
      id := objType + "_" + Decimal(counts[objType]);
    }
  }
}
