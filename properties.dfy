/**
 * The attribute part of a feature: which columns become properties, under
 * which names, and the dictionary built from one row. A Python `dict` is
 * modelled as a list of entries in insertion order: assigning a key that is
 * present replaces its value where it stands, a new key goes at the end,
 * and `del` removes the entry.
 */
module Properties {
  import opened Wrappers
  import opened Records

  /** The system-computed measure columns that are never written. */
  const SystemColumns: seq<string> := ["Shape_Area", "Shape_Length"]

  /** `field.aliasName or field.name` */
  function DisplayName(f: FieldInfo): string
  {
    if f.aliasName != "" then f.aliasName else f.name
  }

  /** No later field in the list has the same name as field `i`. */
  predicate LastOfName(fields: seq<FieldInfo>, i: int)
    requires 0 <= i < |fields|
  {
    forall j :: i < j < |fields| ==> fields[j].name != fields[i].name
  }

  /**
   * The dictionary comprehension over the field list: every field name maps
   * to its display name, and a later field of the same name replaces an
   * earlier one.
   */
  function AliasTable(fields: seq<FieldInfo>): map<string, string>
    decreases |fields|
  {
    if fields == [] then map[]
    else
      var last := fields[|fields| - 1];
      AliasTable(fields[..|fields| - 1])[last.name := DisplayName(last)]
  }

  /** The alias table has an entry for exactly the listed field names. */
  lemma {:induction false} AliasTableKeys(fields: seq<FieldInfo>)
    ensures forall i :: 0 <= i < |fields| ==> fields[i].name in AliasTable(fields)
    ensures forall n :: n in AliasTable(fields) ==> exists i :: 0 <= i < |fields| && fields[i].name == n
    decreases |fields|
  {
    if fields != [] {
      var n := |fields| - 1;
      var pre := fields[..n];
      AliasTableKeys(pre);
      forall i | 0 <= i < n ensures fields[i].name in AliasTable(fields) {
        assert pre[i] == fields[i];
      }
      forall nm | nm in AliasTable(fields) && nm != fields[n].name
        ensures exists i :: 0 <= i < |fields| && fields[i].name == nm
      {
        var i :| 0 <= i < |pre| && pre[i].name == nm;
        assert fields[i] == pre[i];
      }
    }
  }

  /** Each name maps to the display name of the last field listed under it. */
  lemma {:induction false} AliasTableLastWins(fields: seq<FieldInfo>, i: int)
    requires 0 <= i < |fields| && LastOfName(fields, i)
    ensures fields[i].name in AliasTable(fields)
    ensures AliasTable(fields)[fields[i].name] == DisplayName(fields[i])
    decreases |fields|
  {
    var n := |fields| - 1;
    if i < n {
      var pre := fields[..n];
      assert fields[n].name != fields[i].name;
      assert pre[i] == fields[i];
      assert LastOfName(pre, i) by {
        forall j | i < j < |pre| ensures pre[j].name != pre[i].name {
          assert pre[j] == fields[j];
        }
      }
      AliasTableLastWins(pre, i);
    }
  }

  /** `aliased_fields.get(f, f)` */
  function Lookup(t: map<string, string>, f: string): string
  {
    if f in t then t[f] else f
  }

  /** Python's `s[1:]`, which is empty for an empty list. */
  function Tail<T>(s: seq<T>): seq<T>
  {
    if s == [] then [] else s[1..]
  }

  /** `a` can be obtained from `b` by deleting elements. */
  predicate IsSubsequence<T(==)>(a: seq<T>, b: seq<T>)
    decreases |b|
  {
    if a == [] then true
    else if b == [] then false
    else if a[0] == b[0] then IsSubsequence(a[1..], b[1..])
    else IsSubsequence(a, b[1..])
  }

  /**
   * The filter `if f not in ['Shape_Area', 'Shape_Length']`: the columns
   * kept are those of the input that are not system columns, each as often
   * as it occurs, in their original order.
   */
  function KeepColumns(fs: seq<string>): (kept: seq<string>)
    ensures forall k :: 0 <= k < |kept| ==> kept[k] !in SystemColumns
    ensures forall x :: x !in SystemColumns ==> multiset(kept)[x] == multiset(fs)[x]
    ensures IsSubsequence(kept, fs)
  {
    if fs == [] then []
    else
      var rest := KeepColumns(fs[1..]);
      assert fs == [fs[0]] + fs[1..];
      if fs[0] in SystemColumns then
        assert rest != [] ==> rest[0] != fs[0];
        rest
      else
        assert ([fs[0]] + rest)[1..] == rest;
        [fs[0]] + rest
  }

  /**
   * `col_names`: the cursor fields after the first (`SHAPE@`) without the
   * system columns, each under the display name of the last listed field of
   * that name, or under its own name when no field is listed for it.
   */
  function ColumnNames(fields: seq<FieldInfo>, cursorFields: seq<string>): (names: seq<string>)
    ensures |names| == |KeepColumns(Tail(cursorFields))| &&
            forall k, i ::
              0 <= k < |names| && k < |KeepColumns(Tail(cursorFields))| && 0 <= i < |fields| &&
              fields[i].name == KeepColumns(Tail(cursorFields))[k] && LastOfName(fields, i)
              ==> names[k] == DisplayName(fields[i])
    ensures forall k ::
              0 <= k < |names| && k < |KeepColumns(Tail(cursorFields))| &&
              (forall i :: 0 <= i < |fields| ==> fields[i].name != KeepColumns(Tail(cursorFields))[k])
              ==> names[k] == KeepColumns(Tail(cursorFields))[k]
  {
    var kept := KeepColumns(Tail(cursorFields));
    var t := AliasTable(fields);
    AliasTableKeys(fields);
    assert forall i :: 0 <= i < |fields| && LastOfName(fields, i) ==> t[fields[i].name] == DisplayName(fields[i]) by {
      forall i | 0 <= i < |fields| && LastOfName(fields, i) ensures t[fields[i].name] == DisplayName(fields[i]) {
        AliasTableLastWins(fields, i);
      }
    }
    seq(|kept|, k requires 0 <= k < |kept| => Lookup(t, kept[k]))
  }

  /** A property dictionary: its entries in insertion order. */
  type Dict = seq<(string, Value)>

  function KeysOf(d: Dict): seq<string>
  {
    seq(|d|, i requires 0 <= i < |d| => d[i].0)
  }

  predicate UniqueKeys(d: Dict)
  {
    forall i, j :: 0 <= i < j < |d| ==> d[i].0 != d[j].0
  }

  /** `d.get(k)` */
  function Get(d: Dict, k: string): Option<Value>
  {
    if d == [] then None
    else if d[0].0 == k then Some(d[0].1)
    else Get(d[1..], k)
  }

  lemma KeysOfCons(x: (string, Value), d: Dict)
    ensures KeysOf([x] + d) == [x.0] + KeysOf(d)
  {
  }

  /** `d[k] = v` */
  function Insert(d: Dict, k: string, v: Value): Dict
  {
    if d == [] then [(k, v)]
    else if d[0].0 == k then [(k, v)] + d[1..]
    else [d[0]] + Insert(d[1..], k, v)
  }

  /** After `d[k] = v`, `k` holds `v` and every other key what it held. */
  lemma {:induction false} InsertGet(d: Dict, k: string, v: Value)
    ensures Get(Insert(d, k, v), k) == Some(v)
    ensures forall k' :: k' != k ==> Get(Insert(d, k, v), k') == Get(d, k')
    decreases |d|
  {
    if d != [] && d[0].0 != k {
      InsertGet(d[1..], k, v);
      assert Insert(d, k, v) == [d[0]] + Insert(d[1..], k, v);
    }
  }

  /** A present key keeps its place; a new key is appended. */
  lemma {:induction false} InsertKeys(d: Dict, k: string, v: Value)
    ensures forall k' :: k' in KeysOf(Insert(d, k, v)) <==> k' in KeysOf(d) || k' == k
    ensures k in KeysOf(d) ==> KeysOf(Insert(d, k, v)) == KeysOf(d)
    ensures k !in KeysOf(d) ==> Insert(d, k, v) == d + [(k, v)]
    decreases |d|
  {
    var r := Insert(d, k, v);
    if d == [] {
      assert KeysOf(r) == [k];
    } else {
      assert d == [d[0]] + d[1..];
      KeysOfCons(d[0], d[1..]);
      if d[0].0 == k {
        KeysOfCons((k, v), d[1..]);
        assert KeysOf(d)[0] == k;
      } else {
        var rest := Insert(d[1..], k, v);
        InsertKeys(d[1..], k, v);
        assert r == [d[0]] + rest;
        KeysOfCons(d[0], rest);
      }
    }
  }

  /** `d[k] = v` never makes a key appear twice. */
  lemma {:induction false} InsertUnique(d: Dict, k: string, v: Value)
    requires UniqueKeys(d)
    ensures UniqueKeys(Insert(d, k, v))
    decreases |d|
  {
    var r := Insert(d, k, v);
    if d != [] {
      if d[0].0 == k {
        forall i, j | 0 <= i < j < |r| ensures r[i].0 != r[j].0 {
          assert r[i].0 == d[i].0 && r[j].0 == d[j].0;
        }
      } else {
        var rest := Insert(d[1..], k, v);
        assert r == [d[0]] + rest;
        assert UniqueKeys(d[1..]) by {
          forall i, j | 0 <= i < j < |d[1..]| ensures d[1..][i].0 != d[1..][j].0 {
            assert d[1..][i] == d[i + 1] && d[1..][j] == d[j + 1];
          }
        }
        InsertUnique(d[1..], k, v);
        InsertKeys(d[1..], k, v);
        assert d[0].0 !in KeysOf(d[1..]) by {
          forall i | 0 <= i < |d[1..]| ensures KeysOf(d[1..])[i] != d[0].0 {
            assert d[1..][i] == d[i + 1];
          }
        }
        forall i, j | 0 <= i < j < |r| ensures r[i].0 != r[j].0 {
          if i == 0 {
            assert r[j] == rest[j - 1];
            assert KeysOf(rest)[j - 1] == r[j].0;
          } else {
            assert r[i] == rest[i - 1] && r[j] == rest[j - 1];
          }
        }
      }
    }
  }

  /** The value assigned last to key `k` in a list of assignments. */
  function LastValue(pairs: Dict, k: string): Option<Value>
  {
    if pairs == [] then None
    else if pairs[|pairs| - 1].0 == k then Some(pairs[|pairs| - 1].1)
    else LastValue(pairs[..|pairs| - 1], k)
  }

  /** `dict(pairs)`: the pairs assigned one after another into an empty dictionary. */
  function FromPairs(pairs: Dict): Dict
  {
    if pairs == [] then []
    else
      var n := |pairs| - 1;
      Insert(FromPairs(pairs[..n]), pairs[n].0, pairs[n].1)
  }

  /** `dict(pairs)` has the keys of the pairs, each once. */
  lemma {:induction false} FromPairsKeys(pairs: Dict)
    ensures UniqueKeys(FromPairs(pairs))
    ensures forall k :: k in KeysOf(FromPairs(pairs)) <==> k in KeysOf(pairs)
    decreases |pairs|
  {
    if pairs != [] {
      var n := |pairs| - 1;
      var prefix := pairs[..n];
      var p := pairs[n];
      assert FromPairs(pairs) == Insert(FromPairs(prefix), p.0, p.1);
      FromPairsKeys(prefix);
      InsertKeys(FromPairs(prefix), p.0, p.1);
      InsertUnique(FromPairs(prefix), p.0, p.1);
      assert KeysOf(pairs) == KeysOf(prefix) + [p.0];
    }
  }

  /** Each key of `dict(pairs)` holds the value assigned to it last. */
  lemma {:induction false} FromPairsGet(pairs: Dict, k: string)
    ensures Get(FromPairs(pairs), k) == LastValue(pairs, k)
    decreases |pairs|
  {
    if pairs != [] {
      var n := |pairs| - 1;
      var prefix := pairs[..n];
      var p := pairs[n];
      assert FromPairs(pairs) == Insert(FromPairs(prefix), p.0, p.1);
      FromPairsGet(prefix, k);
      InsertGet(FromPairs(prefix), p.0, p.1);
    }
  }

  /** Pairs with distinct keys come back from `dict(pairs)` unchanged, in order. */
  lemma {:induction false} FromPairsDistinct(pairs: Dict)
    requires UniqueKeys(pairs)
    ensures FromPairs(pairs) == pairs
    decreases |pairs|
  {
    if pairs != [] {
      var n := |pairs| - 1;
      var prefix := pairs[..n];
      var p := pairs[n];
      assert FromPairs(pairs) == Insert(FromPairs(prefix), p.0, p.1);
      assert UniqueKeys(prefix) by {
        forall i, j | 0 <= i < j < |prefix| ensures prefix[i].0 != prefix[j].0 {
          assert prefix[i] == pairs[i] && prefix[j] == pairs[j];
        }
      }
      FromPairsDistinct(prefix);
      assert p.0 !in KeysOf(prefix) by {
        forall i | 0 <= i < |prefix| ensures KeysOf(prefix)[i] != p.0 {
          assert prefix[i] == pairs[i];
        }
      }
      InsertKeys(prefix, p.0, p.1);
      assert pairs == prefix + [p];
    }
  }

  /** `del d[k]` */
  function Delete(d: Dict, k: string): Dict
  {
    if d == [] then []
    else if d[0].0 == k then Delete(d[1..], k)
    else [d[0]] + Delete(d[1..], k)
  }

  /** The names other than `k`, in their order. */
  function Without(names: seq<string>, k: string): (r: seq<string>)
    ensures forall x :: x in r <==> x in names && x != k
    ensures k !in names ==> r == names
  {
    if names == [] then []
    else
      assert names == [names[0]] + names[1..];
      (if names[0] == k then [] else [names[0]]) + Without(names[1..], k)
  }

  /** `del d[k]` removes the entries under `k` and keeps the other keys in order. */
  lemma {:induction false} DeleteKeys(d: Dict, k: string)
    ensures KeysOf(Delete(d, k)) == Without(KeysOf(d), k)
    decreases |d|
  {
    if d != [] {
      DeleteKeys(d[1..], k);
      assert KeysOf(d)[1..] == KeysOf(d[1..]);
      if d[0].0 != k {
        KeysOfCons(d[0], Delete(d[1..], k));
      }
    }
  }

  /** `del d[k]` leaves the value of every other key alone. */
  lemma {:induction false} DeleteGet(d: Dict, k: string, k': string)
    requires k' != k
    ensures Get(Delete(d, k), k') == Get(d, k')
    decreases |d|
  {
    if d != [] {
      DeleteGet(d[1..], k, k');
    }
  }

  /** `del d[k]` keeps the remaining entries in order, and changes nothing when `k` is absent. */
  lemma {:induction false} DeleteOrder(d: Dict, k: string)
    ensures IsSubsequence(Delete(d, k), d)
    ensures k !in KeysOf(d) ==> Delete(d, k) == d
    decreases |d|
  {
    if d != [] {
      var rest := Delete(d[1..], k);
      DeleteOrder(d[1..], k);
      assert KeysOf(d) == [d[0].0] + KeysOf(d[1..]);
      if d[0].0 == k {
        DeleteKeys(d[1..], k);
        assert rest != [] ==> rest[0] != d[0] by {
          assert k !in KeysOf(rest);
          if rest != [] { assert KeysOf(rest)[0] == rest[0].0; }
        }
      } else {
        assert ([d[0]] + rest)[1..] == rest;
      }
    }
  }

  /** Unique keys stay unique after `del d[k]`. */
  lemma DeleteUnique(d: Dict, k: string)
    requires UniqueKeys(d)
    ensures UniqueKeys(Delete(d, k))
  {
    DistinctKeys(d);
    DeleteKeys(d, k);
    WithoutDistinct(KeysOf(d), k);
    DistinctKeys(Delete(d, k));
  }

  /** Unique keys are a list of distinct names. */
  lemma DistinctKeys(d: Dict)
    ensures UniqueKeys(d) <==> Distinct(KeysOf(d))
  {
    assert forall i :: 0 <= i < |d| ==> KeysOf(d)[i] == d[i].0;
  }

  lemma {:induction false} WithoutDistinct(names: seq<string>, k: string)
    requires Distinct(names)
    ensures Distinct(Without(names, k))
    decreases |names|
  {
    if names != [] {
      var rest := Without(names[1..], k);
      assert Distinct(names[1..]) by {
        forall i, j | 0 <= i < j < |names[1..]| ensures names[1..][i] != names[1..][j] {
          assert names[1..][i] == names[i + 1] && names[1..][j] == names[j + 1];
        }
      }
      WithoutDistinct(names[1..], k);
      if names[0] != k {
        assert names[0] !in names[1..] by {
          forall i | 0 <= i < |names[1..]| ensures names[1..][i] != names[0] {
            assert names[1..][i] == names[i + 1];
          }
        }
        assert names[0] !in rest;
        var r := [names[0]] + rest;
        forall i, j | 0 <= i < j < |r| ensures r[i] != r[j] {
          if i == 0 {
            assert r[j] == rest[j - 1];
          } else {
            assert r[i] == rest[i - 1] && r[j] == rest[j - 1];
          }
        }
      }
    }
  }

  /**
   * After `del d[k]`, `k` is gone, every other key keeps its value, the
   * remaining keys keep their order, unique keys stay unique, and nothing
   * changes when `k` was absent.
   */
  lemma DeleteSpec(d: Dict, k: string)
    ensures KeysOf(Delete(d, k)) == Without(KeysOf(d), k)
    ensures k !in KeysOf(Delete(d, k))
    ensures forall k' :: k' != k ==> Get(Delete(d, k), k') == Get(d, k')
    ensures forall k' :: k' != k ==> (k' in KeysOf(Delete(d, k)) <==> k' in KeysOf(d))
    ensures IsSubsequence(Delete(d, k), d)
    ensures UniqueKeys(d) ==> UniqueKeys(Delete(d, k))
    ensures k !in KeysOf(d) ==> Delete(d, k) == d
  {
    DeleteKeys(d, k);
    forall k' | k' != k ensures Get(Delete(d, k), k') == Get(d, k') {
      DeleteGet(d, k, k');
    }
    DeleteOrder(d, k);
    if UniqueKeys(d) {
      DeleteUnique(d, k);
    }
  }

  /** The length of `zip(a, b)`: that of the shorter list. */
  function ZipLength(a: nat, b: nat): nat
  {
    if a <= b then a else b
  }

  /** `zip(a, b)`, which stops at the end of the shorter list. */
  function Zip<A, B>(a: seq<A>, b: seq<B>): (z: seq<(A, B)>)
  {
    var n := ZipLength(|a|, |b|);
    seq(n, i requires 0 <= i < n => (a[i], b[i]))
  }

  /** The keys of `zip(names, values)` are the names that met a value. */
  lemma ZipKeys(names: seq<string>, values: seq<Value>)
    ensures KeysOf(Zip(names, values)) == names[..ZipLength(|names|, |values|)]
  {
  }

  predicate Distinct(names: seq<string>)
  {
    forall i, j :: 0 <= i < j < |names| ==> names[i] != names[j]
  }

  /** The names in order of first appearance, each once: later repetitions are left out. */
  function FirstOccurrences(names: seq<string>): (r: seq<string>)
    ensures Distinct(r)
    ensures forall x :: x in r <==> x in names
    decreases |names|
  {
    if names == [] then []
    else
      var n := |names| - 1;
      var earlier := FirstOccurrences(names[..n]);
      assert names == names[..n] + [names[n]];
      if names[n] in earlier then earlier
      else
        assert forall i :: 0 <= i < |earlier| ==> (earlier + [names[n]])[i] == earlier[i];
        earlier + [names[n]]
  }

  /** One more name is new, or already listed at its first appearance. */
  lemma FirstOccurrencesSnoc(names: seq<string>, x: string)
    ensures FirstOccurrences(names + [x])
      == if x in FirstOccurrences(names) then FirstOccurrences(names) else FirstOccurrences(names) + [x]
  {
    assert (names + [x])[..|names|] == names;
  }

  /** Assigning one more pair keeps the keys at their first appearance. */
  lemma InsertOrder(before: Dict, keys: seq<string>, k: string, v: Value)
    requires KeysOf(before) == FirstOccurrences(keys)
    ensures KeysOf(Insert(before, k, v)) == FirstOccurrences(keys + [k])
  {
    FirstOccurrencesSnoc(keys, k);
    InsertKeys(before, k, v);
    if k in KeysOf(before) {
      assert k in FirstOccurrences(keys);
      assert KeysOf(Insert(before, k, v)) == FirstOccurrences(keys);
    } else {
      assert k !in FirstOccurrences(keys);
      assert KeysOf(before + [(k, v)]) == KeysOf(before) + [k];
    }
  }

  /** `dict(pairs)` lists each key where the pairs first mention it. */
  lemma {:induction false} FromPairsOrder(pairs: Dict)
    ensures KeysOf(FromPairs(pairs)) == FirstOccurrences(KeysOf(pairs))
    decreases |pairs|
  {
    if pairs != [] {
      var n := |pairs| - 1;
      var prefix := pairs[..n];
      FromPairsOrder(prefix);
      assert KeysOf(pairs) == KeysOf(prefix) + [pairs[n].0];
      InsertOrder(FromPairs(prefix), KeysOf(prefix), pairs[n].0, pairs[n].1);
    }
  }

  /** `property_dict`: `dict(zip(col_names, row[1:]))` without the shape field's key. */
  function PropertyDict(names: seq<string>, values: seq<Value>, shapeField: string): Dict
  {
    var all := FromPairs(Zip(names, values));
    if shapeField in KeysOf(all) then Delete(all, shapeField) else all
  }

  /**
   * The properties of a row: the column names that met a value (the zip
   * stops at the shorter list), once each and where they first appear,
   * except the shape field; each holds the value paired with it last; with
   * distinct names, exactly the zip in column order without the shape
   * field's entry.
   */
  lemma PropertyDictSpec(names: seq<string>, values: seq<Value>, shapeField: string)
    ensures KeysOf(PropertyDict(names, values, shapeField))
              == Without(FirstOccurrences(names[..ZipLength(|names|, |values|)]), shapeField)
    ensures UniqueKeys(PropertyDict(names, values, shapeField))
    ensures shapeField !in KeysOf(PropertyDict(names, values, shapeField))
    ensures forall k :: k in KeysOf(PropertyDict(names, values, shapeField)) <==>
              k != shapeField && exists i :: 0 <= i < |names| && i < |values| && names[i] == k
    ensures forall k :: k != shapeField ==>
              Get(PropertyDict(names, values, shapeField), k) == LastValue(Zip(names, values), k)
    ensures Distinct(names) ==> PropertyDict(names, values, shapeField) == Delete(Zip(names, values), shapeField)
  {
    var z := Zip(names, values);
    var all := FromPairs(z);
    FromPairsKeys(z);
    FromPairsOrder(z);
    ZipKeys(names, values);
    forall k ensures Get(all, k) == LastValue(z, k) {
      FromPairsGet(z, k);
    }
    DeleteSpec(all, shapeField);
    forall k ensures k in KeysOf(z) <==> exists i :: 0 <= i < |names| && i < |values| && names[i] == k {
      if k in KeysOf(z) {
        var i :| 0 <= i < |z| && KeysOf(z)[i] == k;
        assert names[i] == k;
      }
      if exists i :: 0 <= i < |names| && i < |values| && names[i] == k {
        var i :| 0 <= i < |names| && i < |values| && names[i] == k;
        assert KeysOf(z)[i] == k;
      }
    }
    if Distinct(names) {
      assert UniqueKeys(z) by {
        forall i, j | 0 <= i < j < |z| ensures z[i].0 != z[j].0 {
          assert z[i].0 == names[i] && z[j].0 == names[j];
        }
      }
      FromPairsDistinct(z);
    }
  }

  /**
   * The names are filtered but the values are not: a system column before
   * an ordinary one shifts the values, and the last value is dropped by the
   * zip.
   */
  lemma FilteredNamesMeetUnfilteredValues()
    ensures ColumnNames([], ["SHAPE@", "Shape_Area", "NAME"]) == ["NAME"]
    ensures PropertyDict(["NAME"], [RealValue(12.5), TextValue("Main St")], "Shape") == [("NAME", RealValue(12.5))]
  {
    assert "Shape_Area" in SystemColumns;
    assert "NAME" !in SystemColumns;
    assert KeepColumns(["NAME"]) == ["NAME"];
    assert Tail(["SHAPE@", "Shape_Area", "NAME"]) == ["Shape_Area", "NAME"];
    assert ["Shape_Area", "NAME"][1..] == ["NAME"];
    var z := Zip(["NAME"], [RealValue(12.5), TextValue("Main St")]);
    assert z == [("NAME", RealValue(12.5))];
    assert FromPairs(z) == Insert(FromPairs([]), "NAME", RealValue(12.5));
    assert KeysOf(FromPairs(z)) == ["NAME"];
  }

  /**
   * The shape field is deleted under its own name, while the keys are
   * display names: a shape field with an alias keeps its entry.
   */
  lemma AliasedShapeFieldIsKept()
    ensures ColumnNames([FieldInfo("Shape", "Geometry")], ["SHAPE@", "Shape"]) == ["Geometry"]
    ensures PropertyDict(["Geometry"], [NullValue], "Shape") == [("Geometry", NullValue)]
  {
    var fields := [FieldInfo("Shape", "Geometry")];
    assert AliasTable(fields) == AliasTable([])["Shape" := "Geometry"];
    assert "Shape" !in SystemColumns;
    assert KeepColumns(["Shape"]) == ["Shape"];
    var z := Zip(["Geometry"], [NullValue]);
    assert z == [("Geometry", NullValue)];
    assert FromPairs(z) == Insert(FromPairs([]), "Geometry", NullValue);
    assert KeysOf(FromPairs(z)) == ["Geometry"];
  }

  /** Two fields sharing an alias give the same column name twice. */
  lemma SharedAliasRepeatsName()
    ensures ColumnNames([FieldInfo("A", "X"), FieldInfo("B", "X")], ["SHAPE@", "A", "B"]) == ["X", "X"]
  {
    var fields := [FieldInfo("A", "X"), FieldInfo("B", "X")];
    assert fields[..1] == [FieldInfo("A", "X")];
    assert AliasTable(fields) == AliasTable([FieldInfo("A", "X")])["B" := "X"];
    assert AliasTable([FieldInfo("A", "X")]) == AliasTable([])["A" := "X"];
    assert "A" !in SystemColumns && "B" !in SystemColumns;
    assert KeepColumns(["A", "B"]) == ["A", "B"];
  }

  /** A repeated name stays where it first appears and holds the value paired with it last. */
  lemma RepeatedNameKeepsFirstPlace()
    ensures PropertyDict(["C", "X", "X"], [IntValue(0), IntValue(1), IntValue(2)], "Shape")
              == [("C", IntValue(0)), ("X", IntValue(2))]
  {
    var z := Zip(["C", "X", "X"], [IntValue(0), IntValue(1), IntValue(2)]);
    assert z == [("C", IntValue(0)), ("X", IntValue(1)), ("X", IntValue(2))];
    assert z[..2] == [("C", IntValue(0)), ("X", IntValue(1))];
    assert z[..2][..1] == z[..1] == [("C", IntValue(0))];
    assert FromPairs(z[..1]) == [("C", IntValue(0))];
    assert FromPairs(z[..2]) == Insert(FromPairs(z[..1]), "X", IntValue(1));
    assert Insert([("C", IntValue(0))], "X", IntValue(1)) == [("C", IntValue(0))] + Insert([], "X", IntValue(1));
    assert FromPairs(z) == Insert(FromPairs(z[..2]), "X", IntValue(2));
    assert Insert([("C", IntValue(0)), ("X", IntValue(1))], "X", IntValue(2))
      == [("C", IntValue(0))] + Insert([("X", IntValue(1))], "X", IntValue(2));
    assert FromPairs(z) == [("C", IntValue(0)), ("X", IntValue(2))];
    assert KeysOf(FromPairs(z)) == ["C", "X"];
  }
}
