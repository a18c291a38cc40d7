/** The one serialisation that is hashed: compact JSON with sorted keys. */
module CanonicalJson {
  // Two values have the same text exactly when they are equal as Python values, whatever the insertion
  // order of their dicts.

  import opened Json
  import opened Sorting
  import opened TextOrder

  type Field = (string, Json)

  predicate FieldLe(f: Field, g: Field) { TextLe(f.0, g.0) }

  lemma FieldLeOrders()
    ensures TotalPreorder(FieldLe)
  {
    TextLeOrders();
    forall f, g, h | FieldLe(f, g) && FieldLe(g, h) ensures FieldLe(f, h) {
      assert TextLe(f.0, g.0) && TextLe(g.0, h.0);
    }
  }

  // ---- Canonical form ----------------------------------------------------------------------

  /** The value with the keys of every dict in order. */
  function SortKeys(v: Json): Json
    decreases v, 1
  {
    match v
    case Arr(items) => Arr(SortItems(items))
    case Obj(fields) => Obj(Sort(SortValues(fields), FieldLe))
    case _ => v
  }

  function SortItems(items: seq<Json>): (r: seq<Json>)
    ensures |r| == |items|
    decreases items, 0
  {
    if items == [] then [] else [SortKeys(items[0])] + SortItems(items[1..])
  }

  function SortField(f: Field): Field
    decreases f, 2
  {
    (f.0, SortKeys(f.1))
  }

  function SortValues(fields: seq<Field>): (r: seq<Field>)
    ensures |r| == |fields|
    ensures forall i :: 0 <= i < |fields| ==> r[i].0 == fields[i].0
    decreases fields, 0
  {
    if fields == [] then [] else [SortField(fields[0])] + SortValues(fields[1..])
  }

  function CanonicalText(v: Json): string { Dump(SortKeys(v)) }

  // ---- Equality of Python values -------------------------------------------------------------

  /** A value up to the insertion order of its dicts. */
  datatype Value =
    | NoneValue
    | IntValue(n: int)
    | StrValue(s: string)
    | ListValue(items: seq<Value>)
    | DictValue(fields: map<string, Value>)

  function Meaning(v: Json): Value
    decreases v, 1
  {
    match v
    case Null => NoneValue
    case Number(n) => IntValue(n)
    case Str(s) => StrValue(s)
    case Arr(items) => ListValue(MeaningItems(items))
    case Obj(fields) => DictValue(MeaningFields(fields))
  }

  function MeaningItems(items: seq<Json>): (r: seq<Value>)
    ensures |r| == |items|
    decreases items, 0
  {
    if items == [] then [] else [Meaning(items[0])] + MeaningItems(items[1..])
  }

  function MeaningField(f: Field): Value
    decreases f, 2
  {
    Meaning(f.1)
  }

  function MeaningFields(fields: seq<Field>): map<string, Value>
    decreases fields, 0
  {
    if fields == [] then map[] else MeaningFields(fields[1..])[fields[0].0 := MeaningField(fields[0])]
  }

  ghost predicate DistinctKeys(fields: seq<Field>) {
    forall i, j :: 0 <= i < j < |fields| ==> fields[i].0 != fields[j].0
  }

  /** No dict has two items under one key. */
  ghost predicate IsPython(v: Json)
    decreases v, 1
  {
    match v
    case Arr(items) => ArePython(items)
    case Obj(fields) => DistinctKeys(fields) && FieldsPython(fields)
    case _ => true
  }

  ghost predicate ArePython(items: seq<Json>)
    decreases items, 0
  {
    items == [] || (IsPython(items[0]) && ArePython(items[1..]))
  }

  ghost predicate FieldPython(f: Field)
    decreases f, 2
  {
    IsPython(f.1)
  }

  ghost predicate FieldsPython(fields: seq<Field>)
    decreases fields, 0
  {
    fields == [] || (FieldPython(fields[0]) && FieldsPython(fields[1..]))
  }

  // ---- Fields as a map -------------------------------------------------------------------

  /** Some field binds the key to a value of that meaning. */
  ghost predicate Binds(fields: seq<Field>, key: string, value: Value) {
    exists i :: 0 <= i < |fields| && fields[i].0 == key && Meaning(fields[i].1) == value
  }

  /** With distinct keys the map holds exactly what the fields bind. */
  lemma {:induction false} MeaningLookup(fields: seq<Field>, key: string, value: Value)
    requires DistinctKeys(fields)
    ensures (key in MeaningFields(fields) && MeaningFields(fields)[key] == value) <==> Binds(fields, key, value)
  {
    if fields != [] {
      var tail := fields[1..];
      MeaningLookup(tail, key, value);
      if key == fields[0].0 {
        assert forall i :: 0 < i < |fields| ==> fields[i].0 != key;
        if Meaning(fields[0].1) == value {
          assert fields[0].0 == key;
        }
      } else {
        if Binds(tail, key, value) {
          var i :| 0 <= i < |tail| && tail[i].0 == key && Meaning(tail[i].1) == value;
          assert fields[i + 1].0 == key;
        }
        if Binds(fields, key, value) {
          var i :| 0 <= i < |fields| && fields[i].0 == key && Meaning(fields[i].1) == value;
          assert tail[i - 1].0 == key;
        }
      }
    }
  }

  lemma SameBindingsSameMap(f: seq<Field>, g: seq<Field>)
    requires DistinctKeys(f) && DistinctKeys(g)
    requires forall key, value :: Binds(f, key, value) <==> Binds(g, key, value)
    ensures MeaningFields(f) == MeaningFields(g)
  {
    var m, n := MeaningFields(f), MeaningFields(g);
    forall key | key in m ensures key in n && n[key] == m[key] {
      MeaningLookup(f, key, m[key]);
      MeaningLookup(g, key, m[key]);
    }
    forall key | key in n ensures key in m {
      MeaningLookup(f, key, n[key]);
      MeaningLookup(g, key, n[key]);
    }
  }

  lemma {:induction false} FieldsPythonAt(fields: seq<Field>, i: nat)
    requires FieldsPython(fields) && i < |fields|
    ensures IsPython(fields[i].1)
  {
    if i > 0 {
      FieldsPythonAt(fields[1..], i - 1);
    }
  }

  lemma {:induction false} SortValuesAt(fields: seq<Field>, i: nat)
    requires i < |fields|
    ensures SortValues(fields)[i] == (fields[i].0, SortKeys(fields[i].1))
  {
    if i > 0 {
      SortValuesAt(fields[1..], i - 1);
    }
  }

  lemma DistinctPermuted(f: seq<Field>, g: seq<Field>)
    requires multiset(f) == multiset(g) && DistinctKeys(f)
    ensures DistinctKeys(g)
  {
    forall i, j | 0 <= i < j < |g| ensures g[i].0 != g[j].0 {
      assert g == g[..i] + [g[i]] + g[i + 1..j] + [g[j]] + g[j + 1..];
      assert multiset{g[i], g[j]} <= multiset(f);
      assert g[i] in multiset(f) && g[j] in multiset(f);
      var k :| 0 <= k < |f| && f[k] == g[i];
      var m :| 0 <= m < |f| && f[m] == g[j];
      OnceOnly(f, k);
    }
  }

  lemma OnceOnly(f: seq<Field>, k: nat)
    requires DistinctKeys(f) && k < |f|
    ensures multiset(f)[f[k]] == 1
  {
    assert f == f[..k] + [f[k]] + f[k + 1..];
    assert f[k] !in f[..k] && f[k] !in f[k + 1..];
  }

  lemma SameElements(f: seq<Field>, g: seq<Field>)
    requires DistinctKeys(f) && DistinctKeys(g)
    requires forall x :: x in f <==> x in g
    ensures multiset(f) == multiset(g)
  {
    forall x ensures multiset(f)[x] == multiset(g)[x] {
      if x in f {
        var k :| 0 <= k < |f| && f[k] == x;
        var m :| 0 <= m < |g| && g[m] == x;
        OnceOnly(f, k);
        OnceOnly(g, m);
      }
    }
  }

  lemma DistinctTies(f: seq<Field>)
    requires DistinctKeys(f)
    ensures TiesEqual(f, FieldLe)
  {
    forall i, j | 0 <= i < |f| && 0 <= j < |f| && FieldLe(f[i], f[j]) && FieldLe(f[j], f[i])
      ensures f[i] == f[j]
    {
      TextLeTotal(f[i].0, f[j].0);
    }
  }

  // ---- Sorting keys keeps the value ------------------------------------------------------

  lemma PermutedBindings(f: seq<Field>, g: seq<Field>, key: string, value: Value)
    requires multiset(f) == multiset(g) && Binds(f, key, value)
    ensures Binds(g, key, value)
  {
    var i :| 0 <= i < |f| && f[i].0 == key && Meaning(f[i].1) == value;
    assert f[i] in multiset(g);
    var j :| 0 <= j < |g| && g[j] == f[i];
  }

  lemma PermutedMap(f: seq<Field>, g: seq<Field>)
    requires multiset(f) == multiset(g) && DistinctKeys(f)
    ensures MeaningFields(f) == MeaningFields(g)
  {
    DistinctPermuted(f, g);
    forall key, value ensures Binds(f, key, value) <==> Binds(g, key, value) {
      if Binds(f, key, value) {
        PermutedBindings(f, g, key, value);
      }
      if Binds(g, key, value) {
        PermutedBindings(g, f, key, value);
      }
    }
    SameBindingsSameMap(f, g);
  }

  lemma {:induction false} SortKeysMeaning(v: Json)
    requires IsPython(v)
    ensures Meaning(SortKeys(v)) == Meaning(v)
    decreases v, 1
  {
    match v {
      case Arr(items) => SortItemsMeaning(items);
      case Obj(fields) =>
        SortValuesMeaning(fields);
        PermutedMap(SortValues(fields), Sort(SortValues(fields), FieldLe));
      case _ =>
    }
  }

  lemma {:induction false} SortItemsMeaning(items: seq<Json>)
    requires ArePython(items)
    ensures MeaningItems(SortItems(items)) == MeaningItems(items)
    decreases items, 0
  {
    if items != [] {
      SortKeysMeaning(items[0]);
      SortItemsMeaning(items[1..]);
      assert SortItems(items)[1..] == SortItems(items[1..]);
    }
  }

  lemma {:induction false} SortFieldMeaning(f: Field)
    requires FieldPython(f)
    ensures MeaningField(SortField(f)) == MeaningField(f)
    decreases f, 2
  {
    SortKeysMeaning(f.1);
  }

  lemma {:induction false} SortValuesMeaning(fields: seq<Field>)
    requires FieldsPython(fields)
    ensures MeaningFields(SortValues(fields)) == MeaningFields(fields)
    decreases fields, 0
  {
    if fields != [] {
      SortFieldMeaning(fields[0]);
      SortValuesMeaning(fields[1..]);
      assert SortValues(fields)[1..] == SortValues(fields[1..]);
    }
  }

  // ---- The value determines the canonical form -------------------------------------------

  lemma {:induction false} MeaningDetermines(v: Json, w: Json)
    requires IsPython(v) && IsPython(w) && Meaning(v) == Meaning(w)
    ensures SortKeys(v) == SortKeys(w)
    decreases v, 1
  {
    match v {
      case Arr(items) => ItemsDetermine(items, w.items);
      case Obj(fields) => FieldsDetermine(fields, w.fields);
      case _ =>
    }
  }

  lemma {:induction false} ItemsDetermine(a: seq<Json>, b: seq<Json>)
    requires ArePython(a) && ArePython(b) && MeaningItems(a) == MeaningItems(b)
    ensures SortItems(a) == SortItems(b)
    decreases a, 0
  {
    assert |a| == |MeaningItems(a)| == |MeaningItems(b)| == |b|;
    if a != [] {
      assert MeaningItems(a)[0] == Meaning(a[0]) && MeaningItems(b)[0] == Meaning(b[0]);
      assert MeaningItems(a)[1..] == MeaningItems(a[1..]) && MeaningItems(b)[1..] == MeaningItems(b[1..]);
      MeaningDetermines(a[0], b[0]);
      ItemsDetermine(a[1..], b[1..]);
    }
  }

  lemma {:induction false} FieldDetermines(f: Field, g: Field)
    requires FieldPython(f) && FieldPython(g) && f.0 == g.0 && Meaning(f.1) == Meaning(g.1)
    ensures SortField(f) == SortField(g)
    decreases f, 2
  {
    MeaningDetermines(f.1, g.1);
  }

  lemma FieldsPythonAll(fields: seq<Field>)
    requires FieldsPython(fields)
    ensures forall i :: 0 <= i < |fields| ==> FieldPython(fields[i])
  {
    forall i | 0 <= i < |fields| ensures FieldPython(fields[i]) {
      FieldsPythonAt(fields, i);
    }
  }

  /** A field of the one dict has its counterpart in an equal one. */
  lemma Counterpart(f: seq<Field>, g: seq<Field>, i: nat) returns (j: nat)
    requires DistinctKeys(f) && DistinctKeys(g) && MeaningFields(f) == MeaningFields(g) && i < |f|
    ensures j < |g| && g[j].0 == f[i].0 && Meaning(g[j].1) == Meaning(f[i].1)
  {
    MeaningLookup(f, f[i].0, Meaning(f[i].1));
    MeaningLookup(g, f[i].0, Meaning(f[i].1));
    assert Binds(f, f[i].0, Meaning(f[i].1));
    j :| 0 <= j < |g| && g[j].0 == f[i].0 && Meaning(g[j].1) == Meaning(f[i].1);
  }

  lemma {:induction false} FieldsDetermine(f: seq<Field>, g: seq<Field>)
    requires DistinctKeys(f) && DistinctKeys(g) && FieldsPython(f) && FieldsPython(g)
    requires MeaningFields(f) == MeaningFields(g)
    ensures Sort(SortValues(f), FieldLe) == Sort(SortValues(g), FieldLe)
    decreases f, 0
  {
    var a, b := SortValues(f), SortValues(g);
    FieldsPythonAll(f);
    FieldsPythonAll(g);
    forall i | 0 <= i < |f| ensures a[i] in b {
      var j := Counterpart(f, g, i);
      FieldDetermines(f[i], g[j]);
      SortValuesAt(f, i);
      SortValuesAt(g, j);
      assert b[j] == a[i];
    }
    forall j | 0 <= j < |g| ensures b[j] in a {
      var i := Counterpart(g, f, j);
      FieldDetermines(f[i], g[j]);
      SortValuesAt(f, i);
      SortValuesAt(g, j);
      assert a[i] == b[j];
    }
    SameElements(a, b);
    DistinctTies(a);
    FieldLeOrders();
    SortForgetsOrder(a, b, FieldLe);
  }

  /** Two values are written alike exactly when they are equal, dicts compared without their order. */
  lemma CanonicalIff(v: Json, w: Json)
    requires IsPython(v) && IsPython(w)
    ensures CanonicalText(v) == CanonicalText(w) <==> Meaning(v) == Meaning(w)
  {
    if CanonicalText(v) == CanonicalText(w) {
      LoadDump(SortKeys(v));
      LoadDump(SortKeys(w));
      SortKeysMeaning(v);
      SortKeysMeaning(w);
    }
    if Meaning(v) == Meaning(w) {
      MeaningDetermines(v, w);
    }
  }

  /** In the canonical form the keys of a dict come in the order of their code points. */
  lemma KeysInOrder(fields: seq<Field>)
    ensures SortedBy(SortKeys(Obj(fields)).fields, FieldLe)
  {
    FieldLeOrders();
    SortSorted(SortValues(fields), FieldLe);
  }
}
