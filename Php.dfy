/** The parts of PHP's runtime that the import controller leans on:
    loosely typed scalar values with `empty()`, ordered arrays, and the
    library helpers `array_merge`, `array_unique`, `explode`, `trim` and
    TYPO3's `GeneralUtility::trimExplode`. */
module Php {

  datatype Option<T> = None | Some(value: T)

  /** A scalar PHP value as it reaches the controller. */
  datatype Value = Null | Bool(b: bool) | Int(i: int) | Str(s: string)

  /** `empty($s)` on a string: only "" and "0" are empty. */
  predicate EmptyString(s: string)
  {
    s == "" || s == "0"
  }

  /** `empty($v)`: null, false, 0, "" and "0" are empty; the rest is truthy. */
  predicate IsEmpty(v: Value)
  {
    match v
    case Null => true
    case Bool(b) => !b
    case Int(i) => i == 0
    case Str(s) => EmptyString(s)
  }

  /** The key PHP files a value under when it is used as an array index:
      null becomes "", booleans and integers become integer keys. An
      integer key is written as its decimal string, which is how PHP
      identifies the key 5 with the key "5". */
  function ArrayKey(v: Value): string
  {
    match v
    case Null => ""
    case Bool(b) => if b then "1" else "0"
    case Int(i) => if i < 0 then "-" + Decimal(-i) else Decimal(i)
    case Str(s) => s
  }

  function Decimal(n: nat): (r: string)
    ensures |r| >= 1
  {
    if n < 10 then ["0123456789"[n]] else Decimal(n / 10) + ["0123456789"[n % 10]]
  }

  // ---------------------------------------------------------------- sequences

  /** One more element of `s` taken. */
  lemma TakeOneMore<T>(s: seq<T>, i: nat)
    requires i < |s|
    ensures s[..i + 1] == s[..i] + [s[i]]
  {
  }

  lemma TakeTake<T>(s: seq<T>, i: nat)
    requires i < |s|
    ensures s[..i + 1][..i] == s[..i]
  {
  }

  lemma TakeAll<T>(s: seq<T>)
    ensures s[..|s|] == s
  {
  }

  ghost predicate Distinct<T>(s: seq<T>)
  {
    forall i, j :: 0 <= i < j < |s| ==> s[i] != s[j]
  }

  /** Dropping the last element keeps the rest distinct, and the last
      element does not occur before. */
  lemma DistinctInit<T>(s: seq<T>)
    requires Distinct(s) && s != []
    ensures Distinct(s[..|s| - 1])
    ensures s[|s| - 1] !in s[..|s| - 1]
  {
    assert forall j :: 0 <= j < |s| - 1 ==> s[..|s| - 1][j] == s[j];
  }

  /** An element of a distinct sequence does not occur before its position. */
  lemma DistinctAt<T>(s: seq<T>, i: nat)
    requires Distinct(s) && i < |s|
    ensures s[i] !in s[..i]
  {
    assert forall j :: 0 <= j < i ==> s[..i][j] == s[j];
  }

  /** The elements of `s` that are not in `drop`, in their original order. */
  function Without<T(==,!new)>(s: seq<T>, drop: set<T>): (r: seq<T>)
    ensures forall x :: x in r <==> x in s && x !in drop
    ensures Distinct(s) ==> Distinct(r)
    decreases |s|
  {
    if s == [] then []
    else
      assert s == s[..|s| - 1] + [s[|s| - 1]];
      var p := Without(s[..|s| - 1], drop);
      if s[|s| - 1] in drop then p else p + [s[|s| - 1]]
  }

  lemma {:induction false} WithoutConcat<T(!new)>(s: seq<T>, t: seq<T>, drop: set<T>)
    ensures Without(s + t, drop) == Without(s, drop) + Without(t, drop)
    decreases |t|
  {
    if t != [] {
      var t' := t[..|t| - 1];
      assert (s + t)[..|s + t| - 1] == s + t';
      WithoutConcat(s, t', drop);
    } else {
      assert s + t == s;
    }
  }

  lemma {:induction false} WithoutTwice<T(!new)>(s: seq<T>, a: set<T>, b: set<T>)
    ensures Without(Without(s, a), b) == Without(s, a + b)
    decreases |s|
  {
    if s != [] {
      var s' := s[..|s| - 1];
      WithoutTwice(s', a, b);
      var p := Without(s', a);
      if s[|s| - 1] !in a {
        assert Without(s, a) == p + [s[|s| - 1]];
        assert (p + [s[|s| - 1]])[..|p|] == p;
      }
    }
  }

  lemma WithoutOne<T(!new)>(x: T, drop: set<T>)
    ensures Without([x], drop) == if x in drop then [] else [x]
  {
    assert [x][..0] == [];
  }

  lemma {:induction false} WithoutNone<T(!new)>(s: seq<T>, drop: set<T>)
    requires forall x :: x in s ==> x !in drop
    ensures Without(s, drop) == s
    decreases |s|
  {
    if s != [] {
      assert s == s[..|s| - 1] + [s[|s| - 1]];
      WithoutNone(s[..|s| - 1], drop);
    }
  }

  lemma WithoutSnoc<T(!new)>(s: seq<T>, x: T, drop: set<T>)
    ensures Without(s + [x], drop) == if x in drop then Without(s, drop) else Without(s, drop) + [x]
  {
    assert (s + [x])[..|s|] == s;
  }

  /** Dropping `d` from a kept head followed by `s` without `a`. */
  lemma AfterHead<T(!new)>(head: seq<T>, s: seq<T>, a: set<T>, d: set<T>)
    requires forall x :: x in head ==> x !in d
    ensures Without(head + Without(s, a), d) == head + Without(s, a + d)
  {
    WithoutConcat(head, Without(s, a), d);
    WithoutNone(head, d);
    WithoutTwice(s, a, d);
  }

  /** `array_unique($s)`: the first occurrence of every value, in order. */
  function ArrayUnique<T(==,!new)>(s: seq<T>): (r: seq<T>)
    ensures Distinct(r)
    ensures forall x :: x in r <==> x in s
    decreases |s|
  {
    if s == [] then []
    else
      assert s == s[..|s| - 1] + [s[|s| - 1]];
      var p := ArrayUnique(s[..|s| - 1]);
      if s[|s| - 1] in p then p else p + [s[|s| - 1]]
  }

  /** One more element of `s` taken into `array_unique`. */
  lemma ArrayUniqueStep<T(!new)>(s: seq<T>, i: nat)
    requires i < |s|
    ensures ArrayUnique(s[..i + 1])
         == if s[i] in ArrayUnique(s[..i]) then ArrayUnique(s[..i]) else ArrayUnique(s[..i]) + [s[i]]
  {
    assert s[..i + 1][..i] == s[..i];
  }

  /** The position of the first occurrence of `x` in `s`. */
  function FirstIndex<T(==)>(s: seq<T>, x: T): (i: nat)
    requires x in s
    ensures i < |s| && s[i] == x
    ensures forall k :: 0 <= k < i ==> s[k] != x
  {
    if s[0] == x then 0 else FirstIndex(s[1..], x) + 1
  }

  /** A first occurrence is the first occurrence. */
  lemma FirstIndexAt<T(!new)>(s: seq<T>, x: T, j: nat)
    requires j < |s| && s[j] == x
    requires forall k :: 0 <= k < j ==> s[k] != x
    ensures FirstIndex(s, x) == j
  {
  }

  /** Appending to `p` leaves the first occurrences of the values of `p`
      where they were. */
  lemma FirstIndexSnoc<T(!new)>(p: seq<T>, x: T, y: T)
    requires y in p
    ensures FirstIndex(p + [x], y) == FirstIndex(p, y)
  {
    var j := FirstIndex(p, y);
    FirstIndexAt(p + [x], y, j);
  }

  /** `array_unique` keeps the values in the order in which they first
      occur in its input; with Distinct and the same elements this fixes
      the result completely. */
  lemma {:induction false} ArrayUniqueOrder<T(!new)>(s: seq<T>)
    ensures forall i, k :: 0 <= i < k < |ArrayUnique(s)| ==>
              FirstIndex(s, ArrayUnique(s)[i]) < FirstIndex(s, ArrayUnique(s)[k])
    decreases |s|
  {
    if s != [] {
      var p := s[..|s| - 1];
      var x := s[|s| - 1];
      assert s == p + [x];
      var u := ArrayUnique(p);
      ArrayUniqueOrder(p);
      assert forall i :: 0 <= i < |u| ==> FirstIndex(s, u[i]) == FirstIndex(p, u[i]) by {
        forall i | 0 <= i < |u| {
          FirstIndexSnoc(p, x, u[i]);
        }
      }
      if x !in u {
        FirstIndexAt(s, x, |p|);
        assert ArrayUnique(s) == u + [x];
        forall i, k | 0 <= i < k < |u| + 1
          ensures FirstIndex(s, (u + [x])[i]) < FirstIndex(s, (u + [x])[k])
        {
          if k == |u| {
            assert (u + [x])[i] == u[i];
          } else {
            assert (u + [x])[i] == u[i] && (u + [x])[k] == u[k];
          }
        }
      }
    }
  }

  // ---------------------------------------------------------------- ordered arrays

  /** A PHP array: `keys` in insertion order, `vals` the entries. */
  datatype OrdMap<K(==), V> = OrdMap(keys: seq<K>, vals: map<K, V>)

  ghost predicate Valid<K(!new), V>(m: OrdMap<K, V>)
  {
    Distinct(m.keys) && forall k :: k in m.vals <==> k in m.keys
  }

  function Empty<K(==,!new), V>(): (m: OrdMap<K, V>)
    ensures Valid(m) && m.keys == [] && m.vals == map[]
  {
    OrdMap([], map[])
  }

  /** `$m[$k] = $v`: an existing key keeps its position, a new key goes last. */
  function Put<K(==,!new), V>(m: OrdMap<K, V>, k: K, v: V): (r: OrdMap<K, V>)
    ensures Valid(m) ==> Valid(r)
  {
    if k in m.vals then OrdMap(m.keys, m.vals[k := v]) else OrdMap(m.keys + [k], m.vals[k := v])
  }

  /** `$m[$k]` on an array of values: a missing key reads as null. */
  function Get(m: OrdMap<string, Value>, k: string): Value
  {
    if k in m.vals then m.vals[k] else Null
  }

  /** `isset($m[$k])`: the key is present and its value is not null. */
  predicate IsSet(m: OrdMap<string, Value>, k: string)
  {
    k in m.vals && m.vals[k] != Null
  }

  /** `unset($m[$k])` for every key `$k` in `d`. */
  function Drop<K(==,!new), V>(m: OrdMap<K, V>, d: set<K>): (r: OrdMap<K, V>)
    ensures Valid(m) ==> Valid(r)
  {
    OrdMap(Without(m.keys, d), m.vals - d)
  }

  /** Unsetting `a` and then `b` is unsetting both at once. */
  lemma DropTwice<K(!new), V>(m: OrdMap<K, V>, a: set<K>, b: set<K>)
    ensures Drop(Drop(m, a), b) == Drop(m, a + b)
  {
    WithoutTwice(m.keys, a, b);
    assert (m.vals - a) - b == m.vals - (a + b);
  }

  lemma DropNothing<K(!new), V>(m: OrdMap<K, V>)
    ensures Drop(m, {}) == m
  {
    WithoutNone(m.keys, {});
    assert m.vals - {} == m.vals;
  }

  /** `foreach ($b as $k => $v) { $a[$k] = $v; }` over the keys `ks` of `vals`. */
  function Assign<K(==,!new), V>(a: OrdMap<K, V>, ks: seq<K>, vals: map<K, V>): (r: OrdMap<K, V>)
    requires forall k :: k in ks ==> k in vals
    ensures Valid(a) ==> Valid(r)
    ensures forall k :: k in r.vals <==> k in a.vals || k in ks
    ensures forall k :: k in r.vals ==> r.vals[k] == if k in ks then vals[k] else a.vals[k]
    decreases |ks|
  {
    if ks == [] then a
    else
      assert ks == ks[..|ks| - 1] + [ks[|ks| - 1]];
      Put(Assign(a, ks[..|ks| - 1], vals), ks[|ks| - 1], vals[ks[|ks| - 1]])
  }

  lemma {:induction false} AssignKeys<K(!new), V>(a: OrdMap<K, V>, ks: seq<K>, vals: map<K, V>)
    requires Valid(a) && Distinct(ks)
    requires forall k :: k in ks ==> k in vals
    ensures Assign(a, ks, vals).keys == a.keys + Without(ks, a.vals.Keys)
    decreases |ks|
  {
    if ks != [] {
      var p := ks[..|ks| - 1];
      var k := ks[|ks| - 1];
      DistinctInit(ks);
      TakeOneMore(ks, |ks| - 1);
      TakeAll(ks);
      AssignKeys(a, p, vals);
      WithoutSnoc(p, k, a.vals.Keys);
      var r := Assign(a, p, vals);
      assert Assign(a, ks, vals) == Put(r, k, vals[k]);
      assert k in r.vals <==> k in a.vals.Keys;
      PutKeys(r, k, vals[k], a.keys, Without(p, a.vals.Keys), a.vals.Keys);
    }
  }

  /** Writing `k` into an array whose keys are `head + tail` appends `k`
      to `tail` exactly when `k` is new. */
  lemma PutKeys<K(!new), V>(r: OrdMap<K, V>, k: K, v: V, head: seq<K>, tail: seq<K>, seen: set<K>)
    requires r.keys == head + tail
    requires k in r.vals <==> k in seen
    ensures Put(r, k, v).keys == head + (if k in seen then tail else tail + [k])
  {
    if k !in seen {
      assert (head + tail) + [k] == head + (tail + [k]);
    }
  }

  /** `array_merge($a, $b)` on string keys: the entries of `a`, then the new
      keys of `b` in order; for a key in both, `b`'s value wins and `a`'s
      position stays. */
  function ArrayMerge<K(==,!new), V>(a: OrdMap<K, V>, b: OrdMap<K, V>): (r: OrdMap<K, V>)
    requires Valid(a) && Valid(b)
    ensures Valid(r)
    ensures r.keys == a.keys + Without(b.keys, a.vals.Keys)
    ensures r.vals == a.vals + b.vals
  {
    AssignKeys(a, b.keys, b.vals);
    AssignAll(a, b);
    Assign(a, b.keys, b.vals)
  }

  /** Assigning every entry of `b` gives `b`'s values over `a`'s. */
  lemma AssignAll<K(!new), V>(a: OrdMap<K, V>, b: OrdMap<K, V>)
    requires Valid(b)
    ensures Assign(a, b.keys, b.vals).vals == a.vals + b.vals
  {
    var r := Assign(a, b.keys, b.vals);
    assert r.vals.Keys == (a.vals + b.vals).Keys;
  }

  // ---------------------------------------------------------------- strings

  /** The characters PHP's `trim` strips by default. */
  const Blanks: set<char> := {' ', '\t', '\n', '\r', '\0', '\U{0B}'}

  function TrimLeft(s: string): (r: string)
    ensures |r| <= |s| && r == s[|s| - |r|..]
    ensures r != [] ==> r[0] !in Blanks
    decreases |s|
  {
    if s != [] && s[0] in Blanks then TrimLeft(s[1..]) else s
  }

  function TrimRight(s: string): (r: string)
    ensures |r| <= |s| && r == s[..|r|]
    ensures r != [] ==> r[|r| - 1] !in Blanks
    decreases |s|
  {
    if s != [] && s[|s| - 1] in Blanks then TrimRight(s[..|s| - 1]) else s
  }

  /** `trim($s)`: neither end of the result is a blank. */
  function Trim(s: string): (r: string)
    ensures r != [] ==> r[0] !in Blanks && r[|r| - 1] !in Blanks
  {
    TrimRight(TrimLeft(s))
  }

  /** `explode(',', $s)`: the pieces between commas, at least one. */
  function Explode(s: string): (parts: seq<string>)
    ensures |parts| >= 1
    ensures forall p :: p in parts ==> ',' !in p
    decreases |s|
  {
    if s == [] then [""]
    else
      var rest := Explode(s[1..]);
      if s[0] == ',' then [""] + rest else [[s[0]] + rest[0]] + rest[1..]
  }

  /** `implode(',', $parts)`. */
  function Join(parts: seq<string>): string
    requires |parts| >= 1
    decreases |parts|
  {
    if |parts| == 1 then parts[0] else parts[0] + "," + Join(parts[1..])
  }

  /** `GeneralUtility::trimExplode(',', $s)` without removing empty pieces. */
  function TrimExplode(s: string): (r: seq<string>)
    ensures |r| >= 1
  {
    var parts := Explode(s);
    seq(|parts|, i requires 0 <= i < |parts| => Trim(parts[i]))
  }

  lemma {:induction false} ExplodePlain(p: string)
    requires ',' !in p
    ensures Explode(p) == [p]
    decreases |p|
  {
    if p != [] {
      ExplodePlain(p[1..]);
      assert [p[0]] + p[1..] == p;
    }
  }

  lemma {:induction false} ExplodeComma(p: string, t: string)
    requires ',' !in p
    ensures Explode(p + "," + t) == [p] + Explode(t)
    decreases |p|
  {
    var s := p + "," + t;
    if p == [] {
      assert s[1..] == t;
    } else {
      assert s[1..] == p[1..] + "," + t;
      ExplodeComma(p[1..], t);
      assert [p[0]] + p[1..] == p;
    }
  }

  /** Imploding comma-free pieces and exploding again gives the pieces back. */
  lemma {:induction false} ExplodeJoin(parts: seq<string>)
    requires |parts| >= 1
    requires forall p :: p in parts ==> ',' !in p
    ensures Explode(Join(parts)) == parts
    decreases |parts|
  {
    if |parts| == 1 {
      ExplodePlain(parts[0]);
    } else {
      ExplodeJoin(parts[1..]);
      ExplodeComma(parts[0], Join(parts[1..]));
      assert [parts[0]] + parts[1..] == parts;
    }
  }

  /** `trimExplode(',', implode(',', $parts))` restores a non-empty list
      of comma-free, already trimmed names. */
  lemma TrimExplodeJoin(parts: seq<string>)
    requires |parts| >= 1
    requires forall p :: p in parts ==> ',' !in p && Trim(p) == p
    ensures TrimExplode(Join(parts)) == parts
  {
    ExplodeJoin(parts);
    var r := TrimExplode(Join(parts));
    assert |r| == |parts|;
    forall i | 0 <= i < |parts|
      ensures r[i] == parts[i]
    {
      assert parts[i] in parts;
    }
  }

  /** An empty list does not read back as empty: it is one empty name. */
  lemma TrimExplodeEmpty()
    ensures TrimExplode("") == [""]
  {
    assert Explode("") == [""];
    assert Trim("") == "";
  }
}
