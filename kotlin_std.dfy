/** The parts of the Kotlin/JVM standard library that the binding engine relies on:
    nullable values, `String.isBlank`, `MutableMap.putIfAbsent` and the insertion
    order of a `LinkedHashMap`. */
module KotlinStd {

  /** A Kotlin nullable `T?`; `None` is `null`. */
  datatype Option<+T> = None | Some(value: T)

  /** `Char.isWhitespace()` on the JVM: `Character.isWhitespace(c) || Character.isSpaceChar(c)`,
      that is the ASCII controls TAB..CR and FS..US, and every space, line and paragraph separator. */
  predicate IsWhitespace(c: char) {
    var n := c as int;
    || (0x09 <= n <= 0x0D)
    || (0x1C <= n <= 0x20)
    || n == 0xA0
    || n == 0x1680
    || (0x2000 <= n <= 0x200A)
    || n == 0x2028
    || n == 0x2029
    || n == 0x202F
    || n == 0x205F
    || n == 0x3000
  }

  /** `String.isBlank()`: empty, or whitespace only. */
  predicate IsBlank(s: string) {
    forall i :: 0 <= i < |s| ==> IsWhitespace(s[i])
  }

  /** `String?.isNullOrBlank()`: null, or a string all of whose characters (none, for
      the empty string) are whitespace. */
  function IsNullOrBlank(s: Option<string>): (b: bool)
    ensures s.None? ==> b
    ensures s.Some? ==> (b <==> forall c :: c in s.value ==> IsWhitespace(c))
  {
    s.None? || IsBlank(s.value)
  }

  /** `MutableMap.putIfAbsent(k, v)` as `java.util.Map` defines it: the key is
      (re)bound to `v` when it is missing or bound to `null`; a non-null value is
      never replaced. */
  function PutIfAbsent<K, V>(m: map<K, Option<V>>, k: K, v: Option<V>): (r: map<K, Option<V>>)
    ensures r.Keys == m.Keys + {k}
    ensures forall j :: j in m && m[j].Some? ==> r[j] == m[j]
    ensures k !in m || m[k].None? ==> r[k] == v
    ensures forall j :: j in m && j != k ==> r[j] == m[j]
  {
    if k in m && m[k].Some? then m else m[k := v]
  }

  /** `order` lists each key of `keys` exactly once and nothing else: the iteration
      order of a map whose key set is `keys`. */
  predicate OrderLists<K>(order: seq<K>, keys: set<K>) {
    && (forall i, j :: 0 <= i < j < |order| ==> order[i] != order[j])
    && (forall k :: k in keys ==> k in order)
    && (forall i :: 0 <= i < |order| ==> order[i] in keys)
  }

  /** A `LinkedHashMap`: its entries, and its keys in the order they were first inserted. */
  datatype LinkedMap<K, V> = LinkedMap(order: seq<K>, entries: map<K, V>) {

    /** The iteration order lists every key exactly once. */
    predicate Valid() {
      OrderLists(order, entries.Keys)
    }

    /** `map[k] = v`. */
    function Put(k: K, v: V): LinkedMap<K, V> {
      LinkedMap(if k in entries then order else order + [k], entries[k := v])
    }
  }

  /** `Put` keeps the map well formed; a new key is appended to the iteration order,
      a key already present keeps its position and takes the new value, and every
      other entry is unchanged. */
  lemma PutSpec<K, V>(m: LinkedMap<K, V>, k: K, v: V)
    ensures m.Valid() ==> m.Put(k, v).Valid()
    ensures m.Put(k, v).entries.Keys == m.entries.Keys + {k} && m.Put(k, v).entries[k] == v
    ensures forall j :: j in m.entries && j != k ==> m.Put(k, v).entries[j] == m.entries[j]
    ensures k in m.entries ==> m.Put(k, v).order == m.order
    ensures k !in m.entries ==> m.Put(k, v).order == m.order + [k]
  {
  }

  /** `linkedMapOf()`. */
  function EmptyLinkedMap<K, V>(): (r: LinkedMap<K, V>)
    ensures r.Valid() && r.entries == map[]
  {
    LinkedMap([], map[])
  }

  /** The distinct elements of `s`, each at the position of its first occurrence:
      the iteration order of a `LinkedHashMap` into which the keys of `s` were put in turn. */
  function FirstOccurrences<K(==)>(s: seq<K>): seq<K>
  {
    if s == [] then []
    else
      var p := FirstOccurrences(s[..|s| - 1]);
      if s[|s| - 1] in p then p else p + [s[|s| - 1]]
  }

  /** The first occurrences hold every element of `s` exactly once and nothing else. */
  lemma {:induction false} FirstOccurrencesSpec<K>(s: seq<K>)
    ensures forall i :: 0 <= i < |FirstOccurrences(s)| ==> FirstOccurrences(s)[i] in s
    ensures forall i :: 0 <= i < |s| ==> s[i] in FirstOccurrences(s)
    ensures forall i, j :: 0 <= i < j < |FirstOccurrences(s)| ==> FirstOccurrences(s)[i] != FirstOccurrences(s)[j]
    ensures |FirstOccurrences(s)| <= |s|
  {
    if s != [] {
      var front, last := s[..|s| - 1], s[|s| - 1];
      FirstOccurrencesSpec(front);
      assert s == front + [last];
      forall i | 0 <= i < |s|
        ensures s[i] in FirstOccurrences(s)
      {
        if i < |front| {
          assert s[i] == front[i];
        }
      }
    }
  }

  /** A sequence without repetitions is its own list of first occurrences. */
  lemma {:induction false} FirstOccurrencesOfDistinct<K>(s: seq<K>)
    requires forall i, j :: 0 <= i < j < |s| ==> s[i] != s[j]
    ensures FirstOccurrences(s) == s
  {
    if s != [] {
      var front := s[..|s| - 1];
      FirstOccurrencesOfDistinct(front);
      forall i | 0 <= i < |front|
        ensures front[i] != s[|s| - 1]
      {
        assert front[i] == s[i];
      }
      assert front + [s[|s| - 1]] == s;
    }
  }

  /** A repeat of an element already seen leaves the first occurrences unchanged. */
  lemma {:induction false} FirstOccurrencesSkip<K>(a: seq<K>, x: K, b: seq<K>)
    requires x in a
    ensures FirstOccurrences(a + [x] + b) == FirstOccurrences(a + b)
    decreases |b|
  {
    var s1, s2 := a + [x] + b, a + b;
    if b == [] {
      assert s1 == a + [x] && s1[..|s1| - 1] == a && s1[|s1| - 1] == x;
      assert s2 == a;
      var i :| 0 <= i < |a| && a[i] == x;
      FirstOccurrencesSpec(a);
    } else {
      var b', y := b[..|b| - 1], b[|b| - 1];
      FirstOccurrencesSkip(a, x, b');
      assert s1[..|s1| - 1] == a + [x] + b' && s1[|s1| - 1] == y;
      assert s2[..|s2| - 1] == a + b' && s2[|s2| - 1] == y;
    }
  }

  /** A well-formed map's iteration order is its own list of first occurrences. */
  lemma ValidOrderFirstOccurrences<K, V>(m: LinkedMap<K, V>)
    requires m.Valid()
    ensures FirstOccurrences(m.order) == m.order
  {
    FirstOccurrencesOfDistinct(m.order);
  }

  /** Putting `k` and then the keys `rest` into a well-formed map orders its keys as
      putting `[k] + rest` in one go does. */
  lemma PutOrder<K, V>(m: LinkedMap<K, V>, k: K, v: V, rest: seq<K>)
    requires m.Valid()
    ensures m.Put(k, v).Valid()
    ensures FirstOccurrences(m.Put(k, v).order + rest) == FirstOccurrences(m.order + ([k] + rest))
  {
    PutSpec(m, k, v);
    assert m.order + ([k] + rest) == m.order + [k] + rest;
    if k in m.entries {
      FirstOccurrencesSkip(m.order, k, rest);
    }
  }
}
