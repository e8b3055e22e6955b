/** The id search that every insertion and removal of the graph relies on
    (graphite.js `binarySearchById`, lines 69-116), and JavaScript's
    `Array.prototype.splice` as the graph uses it. */
module Search {
  import opened Slots
  import opened Ids

  /** `{index, obj}`: `obj` is the element found, or `null` (None). */
  datatype SearchResult<T> = SearchResult(index: int, obj: Option<T>)

  /** What the search loop computes from a given `start`/`end` window.
      `collection[middle] === obj` is reference equality on the elements;
      the ids are compared with JavaScript's `<` on strings. */
  function SearchFrom<T(==)>(c: seq<T>, obj: T, id: T -> string, start: int, end: int): (r: SearchResult<T>)
    requires 0 <= start && -1 <= end < |c|
    ensures r.obj.Some? ==> start <= r.index <= end && c[r.index] == obj && r.obj == Some(obj)
    ensures r.obj.None? ==> start + 1 <= r.index <= (if start <= end then end + 1 else start + 1)
    decreases end - start
  {
    if start < end then
      var middle := (start + end) / 2;
      if c[middle] == obj then SearchResult(middle, Some(c[middle]))
      else if LexLess(id(c[middle]), id(obj)) then SearchFrom(c, obj, id, middle + 1, end)
      else SearchFrom(c, obj, id, start, middle - 1)
    else SearchResult(start + 1, None)
  }

  /** `binarySearchById(collection, obj)`: the loop starts with
      `start = 0` and `end = collection.length - 1`. */
  function BinarySearch<T(==)>(c: seq<T>, obj: T, id: T -> string): (r: SearchResult<T>)
    ensures r.index >= 0
  {
    SearchFromResult(c, obj, id, 0, |c| - 1);
    SearchFrom(c, obj, id, 0, |c| - 1)
  }

  /** The loop of `binarySearchById`, line by line. */
  method BinarySearchById<T(==)>(collection: seq<T>, obj: T, id: T -> string) returns (r: SearchResult<T>)
    ensures r == BinarySearch(collection, obj, id)
  {
    var start := 0;
    var end := |collection| - 1;
    while start < end
      invariant 0 <= start && -1 <= end < |collection|
      invariant SearchFrom(collection, obj, id, start, end) == BinarySearch(collection, obj, id)
      decreases end - start
    {
      var middle := (start + end) / 2;
      if collection[middle] == obj {
        return SearchResult(middle, Some(collection[middle]));
      } else if LexLess(id(collection[middle]), id(obj)) {
        start := middle + 1;
      } else {
        end := middle - 1;
      }
    }
    return SearchResult(start + 1, None);
  }

  lemma {:induction false} SearchFromResult<T>(c: seq<T>, obj: T, id: T -> string, start: int, end: int)
    requires 0 <= start && -1 <= end < |c|
    requires |c| == 0 ==> start == 0
    requires |c| > 0 ==> start < |c|
    ensures var r := SearchFrom(c, obj, id, start, end);
      && (r.obj.Some? ==> 0 <= r.index < |c| && c[r.index] == obj && r.obj == Some(obj))
      && (r.obj.None? ==> start + 1 <= r.index && (if |c| == 0 then r.index == 1 else r.index <= |c|))
    decreases end - start
  {
    if start < end {
      var middle := (start + end) / 2;
      if c[middle] != obj {
        if LexLess(id(c[middle]), id(obj)) {
          SearchFromResult(c, obj, id, middle + 1, end);
        } else {
          SearchFromResult(c, obj, id, start, middle - 1);
        }
      }
    }
  }

  /** A hit reports the position of `obj` itself. */
  lemma SearchHit<T>(c: seq<T>, obj: T, id: T -> string)
    requires BinarySearch(c, obj, id).obj.Some?
    ensures var r := BinarySearch(c, obj, id);
      0 <= r.index < |c| && c[r.index] == obj && r.obj == Some(obj)
  {
    SearchFromResult(c, obj, id, 0, |c| - 1);
  }

  /** A miss reports `start + 1`: 1 for an empty collection, otherwise a
      position in 1..length. Position 0 is never reported as a miss. */
  lemma SearchMissRange<T>(c: seq<T>, obj: T, id: T -> string)
    requires BinarySearch(c, obj, id).obj.None?
    ensures var r := BinarySearch(c, obj, id);
      1 <= r.index && (if |c| == 0 then r.index == 1 else r.index <= |c|)
  {
    SearchFromResult(c, obj, id, 0, |c| - 1);
  }

  /** The loop never runs on zero or one elements: such a collection
      always reports a miss at index 1, even when its one element is `obj`. */
  lemma SearchShortCollection<T>(c: seq<T>, obj: T, id: T -> string)
    requires |c| <= 1
    ensures BinarySearch(c, obj, id) == SearchResult(1, None)
  {
  }

  function Identity(s: string): string
  {
    s
  }

  ghost predicate SortedById<T>(c: seq<T>, id: T -> string)
  {
    forall i, j :: 0 <= i < j < |c| ==> LexLess(id(c[i]), id(c[j]))
  }

  /** The documented result ("index in the collection where the obj was
      found, or where it should've been found") does not hold: in the
      sorted collection ["a", "b", "c"] the element "c" is present at 2,
      yet the search reports a miss at 3; and in ["b"] the place where "a"
      belongs is 0, yet the search reports 1. */
  lemma DocumentedIndexCounterexample()
    ensures SortedById(["a", "b", "c"], Identity)
    ensures BinarySearch(["a", "b", "c"], "c", Identity) == SearchResult(3, None)
    ensures BinarySearch(["b"], "a", Identity) == SearchResult(1, None)
    ensures !SortedById(SpliceInsert(["b"], 1, "a"), Identity)
  {
    var abc := ["a", "b", "c"];
    assert SearchFrom(abc, "c", Identity, 0, 2) == SearchFrom(abc, "c", Identity, 2, 2);
    assert SpliceInsert(["b"], 1, "a") == ["b", "a"];
    assert !LexLess("b", "a");
  }

  /** Three insertions through the search build ["a", "c", "b"]; removing
      "b" through the search then takes out "c" and leaves "b" in place,
      as `removeEdge` and `removeNode` do with `_edges` and `_nodes`. */
  lemma RemovesWrongElement()
    ensures var s1 := SpliceInsert([], BinarySearch([], "a", Identity).index, "a");
      var s2 := SpliceInsert(s1, BinarySearch(s1, "c", Identity).index, "c");
      var s3 := SpliceInsert(s2, BinarySearch(s2, "b", Identity).index, "b");
      && s3 == ["a", "c", "b"]
      && BinarySearch(s3, "b", Identity) == SearchResult(1, None)
      && SpliceRemove(s3, BinarySearch(s3, "b", Identity).index) == ["a", "b"]
  {
    assert SpliceInsert([], 1, "a") == ["a"];
    assert SpliceInsert(["a"], 1, "c") == ["a", "c"];
    assert LexLess("a", "b");
    assert SearchFrom(["a", "c"], "b", Identity, 0, 1) == SearchFrom(["a", "c"], "b", Identity, 1, 1);
    assert SpliceInsert(["a", "c"], 2, "b") == ["a", "c", "b"];
    assert !LexLess("c", "b");
    assert SearchFrom(["a", "c", "b"], "b", Identity, 0, 2) == SearchFrom(["a", "c", "b"], "b", Identity, 0, 0);
    assert SpliceRemove(["a", "c", "b"], 1) == ["a", "b"];
  }

  function Min(a: int, b: int): int
  {
    if a <= b then a else b
  }

  /** `s.splice(index, 0, x)` for `index >= 0`: JavaScript clamps an index
      past the end to the length, so the element is then appended. */
  function SpliceInsert<T>(s: seq<T>, index: int, x: T): (r: seq<T>)
    requires index >= 0
    ensures |r| == |s| + 1
    ensures multiset(r) == multiset(s) + multiset{x}
    ensures r[Min(index, |s|)] == x
    ensures r[..Min(index, |s|)] == s[..Min(index, |s|)]
    ensures r[Min(index, |s|) + 1..] == s[Min(index, |s|)..]
  {
    var i := Min(index, |s|);
    assert s == s[..i] + s[i..];
    s[..i] + [x] + s[i..]
  }

  /** `s.splice(index, 1)` for `index >= 0`: removes the element at
      `index`, or nothing when `index` is past the end. */
  function SpliceRemove<T>(s: seq<T>, index: int): (r: seq<T>)
    requires index >= 0
    ensures index < |s| ==> |r| == |s| - 1 && multiset(r) == multiset(s) - multiset{s[index]}
    ensures index < |s| ==> r[..index] == s[..index] && r[index..] == s[index + 1..]
    ensures index >= |s| ==> r == s
    ensures multiset(r) <= multiset(s)
  {
    if index < |s| then
      assert s == s[..index] + [s[index]] + s[index + 1..];
      s[..index] + s[index + 1..]
    else s
  }
}
