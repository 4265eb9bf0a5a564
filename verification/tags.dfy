/**
  The in-memory tag tree: TagType, NBTValue and NBTTag.

  NBTValue is a record that carries a field for every kind at once; the
  tag's kind decides which one is meaningful.  A compound is a std::map, so
  its children are kept here as (key, tag) entries in strictly increasing
  key order.  The map key and the child's own name are separate data.
  Shared pointers become owned values: the tree is a plain datatype.
 */
module Tags {
  import opened Wrappers
  import opened Binary

  /** The thirteen kinds of tag, in wire-id order 0 to 12. */
  datatype TagType =
    | End | Byte | Short | Int | Long | Float | Double
    | ByteArray | String | List | Compound | IntArray | LongArray

  /** IEEE-754 values are carried as their bit patterns; no arithmetic is done on them. */
  type float32 = x: int | 0 <= x < 0x1_0000_0000
  type float64 = x: int | 0 <= x < 0x1_0000_0000_0000_0000

  /** NBTValue: one field per kind, each starting out zero or empty. */
  datatype Value = Value(
    byteVal: int8,
    shortVal: int16,
    intVal: int32,
    longVal: int64,
    floatVal: float32,
    doubleVal: float64,
    stringVal: cstring,
    byteArrayVal: seq<int8>,
    intArrayVal: seq<int32>,
    longArrayVal: seq<int64>,
    listVal: seq<Tag>,
    compoundVal: seq<Entry>)

  /** One entry of a compound's map: the key it is stored under and the child. */
  datatype Entry = Entry(key: cstring, tag: Tag)

  /** NBTTag: its kind, its own name, and its value record. */
  datatype Tag = Tag(kind: TagType, name: cstring, value: Value)

  /** The value record a freshly constructed NBTValue holds. */
  const EmptyValue: Value := Value(0, 0, 0, 0, 0, 0, "", [], [], [], [], [])

  /** The NBTTag(type, name) constructor. */
  function NewTag(kind: TagType, name: cstring): Tag
  {
    Tag(kind, name, EmptyValue)
  }

  // ------------------------------------------------------------ key order

  /** std::string's operator<: lexicographic, a proper prefix first. */
  predicate KeyLess(a: string, b: string)
  {
    if a == [] then b != []
    else b != [] && (a[0] < b[0] || (a[0] == b[0] && KeyLess(a[1..], b[1..])))
  }

  lemma {:induction false} KeyLessIrreflexive(a: string)
    ensures !KeyLess(a, a)
  {
    if a != [] {
      KeyLessIrreflexive(a[1..]);
    }
  }

  lemma {:induction false} KeyLessTransitive(a: string, b: string, c: string)
    requires KeyLess(a, b) && KeyLess(b, c)
    ensures KeyLess(a, c)
  {
    if a != [] && a[0] == b[0] && b[0] == c[0] {
      KeyLessTransitive(a[1..], b[1..], c[1..]);
    }
  }

  lemma {:induction false} KeyLessTotal(a: string, b: string)
    requires a != b
    ensures KeyLess(a, b) || KeyLess(b, a)
  {
    if a != [] && b != [] && a[0] == b[0] {
      assert a == [a[0]] + a[1..] && b == [b[0]] + b[1..];
      KeyLessTotal(a[1..], b[1..]);
    }
  }

  lemma KeyLessAsymmetric(a: string, b: string)
    requires KeyLess(a, b)
    ensures !KeyLess(b, a)
  {
    if KeyLess(b, a) {
      KeyLessTransitive(a, b, a);
      KeyLessIrreflexive(a);
    }
  }

  // ------------------------------------------------------------ the map

  /** The map invariant: keys strictly increase along the entries. */
  predicate Sorted(es: seq<Entry>)
  {
    forall i, j :: 0 <= i < j < |es| ==> KeyLess(es[i].key, es[j].key)
  }

  /** The set of keys a compound holds. */
  function Keys(es: seq<Entry>): set<string>
  {
    if es == [] then {} else {es[0].key} + Keys(es[1..])
  }

  /** A key is in the set exactly when some entry carries it. */
  lemma {:induction false} KeysIndex(es: seq<Entry>, x: string)
    ensures x in Keys(es) <==> exists i :: 0 <= i < |es| && es[i].key == x
  {
    if es != [] {
      KeysIndex(es[1..], x);
      if x in Keys(es[1..]) {
        var i :| 0 <= i < |es[1..]| && es[1..][i].key == x;
        assert es[i + 1].key == x;
      }
      if exists i :: 0 <= i < |es| && es[i].key == x {
        var i :| 0 <= i < |es| && es[i].key == x;
        if i > 0 {
          assert es[1..][i - 1].key == x;
        }
      }
    }
  }

  /** std::map::find: the child stored under k, if any. */
  function Lookup(es: seq<Entry>, k: string): (r: Option<Tag>)
    ensures r.Some? <==> k in Keys(es)
    ensures r.Some? ==> exists i :: 0 <= i < |es| && es[i].key == k && es[i].tag == r.value
  {
    if es == [] then None
    else if es[0].key == k then Some(es[0].tag)
    else
      var r := Lookup(es[1..], k);
      if r.Some? then
        var i :| 0 <= i < |es[1..]| && es[1..][i].key == k && es[1..][i].tag == r.value;
        assert es[i + 1] == es[1..][i];
        r
      else r
  }

  /** Every key of a sorted tail is above the head's key. */
  lemma SortedHeadBelow(es: seq<Entry>, x: string)
    requires Sorted(es) && es != [] && x in Keys(es[1..])
    ensures KeyLess(es[0].key, x)
  {
    KeysIndex(es[1..], x);
    var i :| 0 <= i < |es[1..]| && es[1..][i].key == x;
    assert es[i + 1].key == x;
  }

  /** The facts that make r the map es after compoundVal[k] = t. */
  ghost predicate IsPut(es: seq<Entry>, k: cstring, t: Tag, r: seq<Entry>)
  {
    && Sorted(r)
    && Keys(r) == Keys(es) + {k}
    && Lookup(r, k) == Some(t)
    && (forall k' :: k' != k ==> Lookup(r, k') == Lookup(es, k'))
    && |r| == if k in Keys(es) then |es| else |es| + 1
  }

  /**
    compoundVal[k] = t: the entry stored under k is replaced when there is
    one, otherwise a new entry is inserted at its place in key order.
   */
  function Put(es: seq<Entry>, k: cstring, t: Tag): (r: seq<Entry>)
    requires Sorted(es)
    ensures Sorted(r)
    ensures Keys(r) == Keys(es) + {k}
    ensures Lookup(r, k) == Some(t)
    ensures forall k' :: k' != k ==> Lookup(r, k') == Lookup(es, k')
    ensures |r| == if k in Keys(es) then |es| else |es| + 1
  {
    if es == [] then
      assert [Entry(k, t)][1..] == [];
      [Entry(k, t)]
    else if es[0].key == k then
      PutReplacesHead(es, k, t);
      [Entry(k, t)] + es[1..]
    else if KeyLess(k, es[0].key) then
      PutBeforeHead(es, k, t);
      [Entry(k, t)] + es
    else
      KeyLessTotal(k, es[0].key);
      var rest := Put(es[1..], k, t);
      PutAfterHead(es, k, t, rest);
      [es[0]] + rest
  }

  /** Put stores nothing but the old entries and the new one. */
  lemma {:induction false} PutEntries(es: seq<Entry>, k: cstring, t: Tag)
    requires Sorted(es)
    ensures forall e :: e in Put(es, k, t) ==> e in es || e == Entry(k, t)
  {
    if es != [] && es[0].key != k && !KeyLess(k, es[0].key) {
      KeyLessTotal(k, es[0].key);
      assert Sorted(es[1..]) by {
        assert forall i, j :: 0 <= i < j < |es[1..]| ==> es[1..][i] == es[i + 1] && es[1..][j] == es[j + 1];
      }
      PutEntries(es[1..], k, t);
      assert Put(es, k, t) == [es[0]] + Put(es[1..], k, t);
    }
  }

  lemma KeysCons(e: Entry, es: seq<Entry>)
    ensures Keys([e] + es) == {e.key} + Keys(es)
  {
    assert ([e] + es)[1..] == es;
  }

  lemma LookupCons(e: Entry, es: seq<Entry>, k: string)
    ensures Lookup([e] + es, k) == if e.key == k then Some(e.tag) else Lookup(es, k)
  {
    assert ([e] + es)[1..] == es;
  }

  lemma PutReplacesHead(es: seq<Entry>, k: cstring, t: Tag)
    requires Sorted(es) && es != [] && es[0].key == k
    ensures IsPut(es, k, t, [Entry(k, t)] + es[1..])
  {
    var r := [Entry(k, t)] + es[1..];
    KeysCons(Entry(k, t), es[1..]);
    KeysCons(es[0], es[1..]);
    assert es == [es[0]] + es[1..];
    forall k' ensures Lookup(r, k') == (if k' == k then Some(t) else Lookup(es, k')) {
      LookupCons(Entry(k, t), es[1..], k');
      LookupCons(es[0], es[1..], k');
    }
    assert forall i, j :: 0 <= i < j < |r| ==> r[i].key == es[i].key && r[j].key == es[j].key;
  }

  lemma PutBeforeHead(es: seq<Entry>, k: cstring, t: Tag)
    requires Sorted(es) && es != [] && KeyLess(k, es[0].key)
    ensures IsPut(es, k, t, [Entry(k, t)] + es)
  {
    var r := [Entry(k, t)] + es;
    KeysCons(Entry(k, t), es);
    forall k' ensures Lookup(r, k') == (if k' == k then Some(t) else Lookup(es, k')) {
      LookupCons(Entry(k, t), es, k');
    }
    forall j | 1 <= j < |r| ensures KeyLess(k, r[j].key) {
      if j > 1 {
        KeyLessTransitive(k, es[0].key, es[j - 1].key);
      }
    }
    assert forall i, j :: 1 <= i < j < |r| ==> r[i] == es[i - 1] && r[j] == es[j - 1];
    assert k !in Keys(es) by {
      KeysIndex(es, k);
      if k in Keys(es) {
        var i :| 0 <= i < |es| && es[i].key == k;
        if i == 0 {
          KeyLessIrreflexive(k);
        } else {
          KeyLessAsymmetric(k, es[0].key);
        }
      }
    }
  }

  lemma PutAfterHead(es: seq<Entry>, k: cstring, t: Tag, rest: seq<Entry>)
    requires Sorted(es) && es != [] && KeyLess(es[0].key, k)
    requires IsPut(es[1..], k, t, rest)
    ensures IsPut(es, k, t, [es[0]] + rest)
  {
    var r := [es[0]] + rest;
    KeysCons(es[0], rest);
    KeysCons(es[0], es[1..]);
    assert es == [es[0]] + es[1..];
    forall k' ensures Lookup(r, k') == (if k' == k then Some(t) else Lookup(es, k')) {
      LookupCons(es[0], rest, k');
      LookupCons(es[0], es[1..], k');
      if k' == k {
        KeyLessIrreflexive(k);
      }
    }
    forall i, j | 0 <= i < j < |r| ensures KeyLess(r[i].key, r[j].key) {
      assert r[j] == rest[j - 1];
      if i == 0 {
        KeysIndex(rest, r[j].key);
        assert r[j].key in Keys(es[1..]) + {k};
        if r[j].key != k {
          SortedHeadBelow(es, r[j].key);
        }
      } else {
        assert r[i] == rest[i - 1];
      }
    }
    assert es[0].key !in Keys(es[1..]) by {
      if es[0].key in Keys(es[1..]) {
        SortedHeadBelow(es, es[0].key);
        KeyLessIrreflexive(es[0].key);
      }
    }
    KeyLessIrreflexive(k);
    assert k in Keys(es) <==> k in Keys(es[1..]);
  }
}
