/** authz/helper.go and authz/agent.go: choosing the input fields a cache key depends on.
    This module works on values; FieldHeap does the same on Go's shared maps. */
module Fields {
  import opened Text
  import opened NormalForm

  type Fieldmap = map<string, Value>

  /** getNestedValue; Go's nil is Null. */
  function GetNested(m: Fieldmap, path: seq<string>): Value
    decreases |path|
  {
    if path == [] || path[0] !in m then Null
    else if |path| == 1 then m[path[0]]
    else if m[path[0]].Obj? then GetNested(m[path[0]].fields, path[1..])
    else Null
  }

  /** The sub-object setNestedValue descends into. */
  function Nested(acc: Fieldmap, k: string): Fieldmap
  {
    if k in acc && acc[k].Obj? then acc[k].fields else map[]
  }

  /** setNestedValue. */
  function SetNested(m: Fieldmap, path: seq<string>, v: Value): Fieldmap
    decreases |path|
  {
    if path == [] then m
    else if |path| == 1 then m[path[0] := v]
    else
      m[path[0] := Obj(SetNested(Nested(m, path[0]), path[1..], v))]
  }

  /** The loop of filterInputFields, started from acc. */
  function FilterFrom(acc: Fieldmap, input: Fieldmap, fields: seq<string>): Fieldmap
    decreases |fields|
  {
    if fields == [] then acc
    else
      var parts := Split(fields[0], '.');
      var v := GetNested(input, parts);
      FilterFrom(if v != Null then SetNested(acc, parts, v) else acc, input, fields[1..])
  }

  /** filterInputFields: an input that is not a map passes through. */
  function FilterFields(input: Value, fields: seq<string>): Value
  {
    if input.Obj? then Obj(FilterFrom(map[], input.fields, fields)) else input
  }

  /** Every part of f is a part of m: equal there, or an object cut down further. */
  ghost predicate Part(f: Fieldmap, m: Fieldmap)
    decreases Obj(f)
  {
    forall k | k in f ::
      k in m && (f[k] == m[k] || (f[k].Obj? && m[k].Obj? && Part(f[k].fields, m[k].fields)))
  }

  lemma {:induction false} PartReads(f: Fieldmap, m: Fieldmap, path: seq<string>)
    requires Part(f, m)
    requires GetNested(m, path) == Null
    ensures GetNested(f, path) == Null
    decreases |path|
  {
    if |path| > 1 && path[0] in f && f[path[0]] != m[path[0]] {
      PartReads(f[path[0]].fields, m[path[0]].fields, path[1..]);
    }
  }

  /** The maps on the way along a path: each holds the next under the path's next segment. */
  ghost predicate Walk(path: seq<string>, ms: seq<Fieldmap>)
  {
    && |ms| == |path| > 0
    && forall k | 0 <= k < |path| - 1 :: path[k] in ms[k] && ms[k][path[k]] == Obj(ms[k + 1])
  }

  /** A way from m along the path, at whose end v stands. */
  ghost predicate Leads(m: Fieldmap, path: seq<string>, ms: seq<Fieldmap>, v: Value)
  {
    Walk(path, ms) && ms[0] == m && var n := |path| - 1; path[n] in ms[n] && ms[n][path[n]] == v
  }

  /** A read finds what stands at the end of the way along the path, and nil if there is no such way. */
  lemma GetExactly(m: Fieldmap, path: seq<string>, v: Value)
    requires v != Null
    ensures GetNested(m, path) == v <==> exists ms :: Leads(m, path, ms, v)
  {
    if GetNested(m, path) == v { var ms := GetLeads(m, path, v); }
    if ms :| Leads(m, path, ms, v) { LeadsGet(m, path, ms, v); }
  }

  lemma {:induction false} GetLeads(m: Fieldmap, path: seq<string>, v: Value) returns (ms: seq<Fieldmap>)
    requires v != Null && GetNested(m, path) == v
    ensures Leads(m, path, ms, v)
    decreases |path|
  {
    if |path| == 1 {
      ms := [m];
    } else {
      var rest := GetLeads(m[path[0]].fields, path[1..], v);
      WalkOn(m, path, rest);
      ms := [m] + rest;
    }
  }

  lemma {:induction false} LeadsGet(m: Fieldmap, path: seq<string>, ms: seq<Fieldmap>, v: Value)
    requires Leads(m, path, ms, v)
    ensures GetNested(m, path) == v
    decreases |path|
  {
    if |path| > 1 {
      assert path[0] in ms[0] && ms[0][path[0]] == Obj(ms[1]);
      WalkRest(path, ms);
      LeadsGet(ms[1], path[1..], ms[1..], v);
    }
  }

  lemma WalkOn(m: Fieldmap, path: seq<string>, ms: seq<Fieldmap>)
    requires |path| > 1 && Walk(path[1..], ms) && path[0] in m && m[path[0]] == Obj(ms[0])
    ensures Walk(path, [m] + ms)
  {
    var all := [m] + ms;
    forall k | 0 <= k < |path| - 1 ensures path[k] in all[k] && all[k][path[k]] == Obj(all[k + 1]) {
      if k > 0 { assert path[1..][k - 1] == path[k]; }
    }
  }

  lemma WalkRest(path: seq<string>, ms: seq<Fieldmap>)
    requires |path| > 1 && Walk(path, ms)
    ensures Walk(path[1..], ms[1..])
  {
    forall k | 0 <= k < |path[1..]| - 1
      ensures path[1..][k] in ms[1..][k] && ms[1..][k][path[1..][k]] == Obj(ms[1..][k + 1])
    {
      assert path[k + 1] in ms[k + 1] && ms[k + 1][path[k + 1]] == Obj(ms[k + 2]);
    }
  }

  /** What is written is read back. */
  lemma {:induction false} SetGet(m: Fieldmap, path: seq<string>, v: Value)
    requires path != []
    ensures GetNested(SetNested(m, path, v), path) == v
    decreases |path|
  {
    if |path| > 1 { SetGet(Nested(m, path[0]), path[1..], v); }
  }

  /** Paths that part at some segment. */
  predicate Parted(p: seq<string>, q: seq<string>)
  {
    p != [] && q != [] && (p[0] != q[0] || Parted(p[1..], q[1..]))
  }

  /** And a path that parts from the written one reads as before. */
  lemma {:induction false} SetOther(m: Fieldmap, path: seq<string>, v: Value, other: seq<string>)
    requires Parted(path, other)
    ensures GetNested(SetNested(m, path, v), other) == GetNested(m, other)
    decreases |path|
  {
    if path[0] == other[0] { SetOther(Nested(m, path[0]), path[1..], v, other[1..]); }
  }

  /** Writing back what is already there changes nothing. */
  lemma {:induction false} SetSame(m: Fieldmap, path: seq<string>)
    requires GetNested(m, path) != Null
    ensures SetNested(m, path, GetNested(m, path)) == m
    decreases |path|
  {
    if |path| > 1 { SetSame(m[path[0]].fields, path[1..]); }
  }

  lemma {:induction false} SetPart(acc: Fieldmap, m: Fieldmap, g: seq<string>)
    requires Part(acc, m) && GetNested(m, g) != Null
    ensures Part(SetNested(acc, g, GetNested(m, g)), m)
    decreases |g|
  {
    if |g| > 1 {
      SetPart(Nested(acc, g[0]), m[g[0]].fields, g[1..]);
    }
  }

  /** Copying one field of m over keeps every field already copied, whatever way the
      two paths overlap. */
  lemma {:induction false} SetKeeps(acc: Fieldmap, m: Fieldmap, g: seq<string>, f: seq<string>)
    requires Part(acc, m) && GetNested(m, g) != Null
    requires f == g || GetNested(acc, f) == GetNested(m, f)
    ensures GetNested(SetNested(acc, g, GetNested(m, g)), f) == GetNested(m, f)
    decreases |g|
  {
    if |g| > 1 && f != [] && f[0] == g[0] {
      var nested, m0 := Nested(acc, g[0]), m[g[0]].fields;
      if |f| == 1 {
        assert acc[g[0]] == m[g[0]];
        SetSame(m0, g[1..]);
      } else {
        SetKeeps(nested, m0, g[1..], f[1..]);
      }
    }
  }

  lemma {:induction false} FilterReads(acc: Fieldmap, m: Fieldmap, fields: seq<string>, f: string)
    requires Part(acc, m)
    requires f in fields || GetNested(acc, Split(f, '.')) == GetNested(m, Split(f, '.'))
    ensures GetNested(FilterFrom(acc, m, fields), Split(f, '.')) == GetNested(m, Split(f, '.'))
    ensures Part(FilterFrom(acc, m, fields), m)
    decreases |fields|
  {
    if fields != [] {
      var parts, path := Split(fields[0], '.'), Split(f, '.');
      if GetNested(m, parts) != Null {
        SetPart(acc, m, parts);
        if f == fields[0] || GetNested(acc, path) == GetNested(m, path) {
          SetKeeps(acc, m, parts, path);
        }
        FilterReads(SetNested(acc, parts, GetNested(m, parts)), m, fields[1..], f);
      } else {
        PartReads(acc, m, parts);
        FilterReads(acc, m, fields[1..], f);
      }
    }
  }

  lemma {:induction false} FilterDepends(acc: Fieldmap, m: Fieldmap, m': Fieldmap, fields: seq<string>)
    requires forall f | f in fields :: GetNested(m, Split(f, '.')) == GetNested(m', Split(f, '.'))
    ensures FilterFrom(acc, m, fields) == FilterFrom(acc, m', fields)
    decreases |fields|
  {
    if fields != [] {
      var parts := Split(fields[0], '.');
      assert fields[0] in fields;
      var v := GetNested(m, parts);
      FilterDepends(if v != Null then SetNested(acc, parts, v) else acc, m, m', fields[1..]);
    }
  }

  /** Field filtering is exact: two inputs get the same filtered map exactly when they
      agree on every configured field, however the configured paths overlap or nest. */
  lemma FilterExact(m: Fieldmap, m': Fieldmap, fields: seq<string>)
    ensures FilterFields(Obj(m), fields) == FilterFields(Obj(m'), fields) <==>
      forall f | f in fields :: GetNested(m, Split(f, '.')) == GetNested(m', Split(f, '.'))
  {
    if FilterFrom(map[], m, fields) == FilterFrom(map[], m', fields) {
      forall f | f in fields ensures GetNested(m, Split(f, '.')) == GetNested(m', Split(f, '.')) {
        FilterReads(map[], m, fields, f);
        FilterReads(map[], m', fields, f);
      }
    }
    if forall f | f in fields :: GetNested(m, Split(f, '.')) == GetNested(m', Split(f, '.')) {
      FilterDepends(map[], m, m', fields);
    }
  }

  // ----- The same up to array order -----

  /** Agreement of two field maps up to array order. */
  ghost predicate Alike(m: Fieldmap, m': Fieldmap)
  {
    MeaningOf(Obj(m)) == MeaningOf(Obj(m'))
  }

  lemma {:induction false} GetAlike(m: Fieldmap, m': Fieldmap, path: seq<string>)
    requires Alike(m, m')
    ensures MeaningOf(GetNested(m, path)) == MeaningOf(GetNested(m', path))
    decreases |path|
  {
    MeaningObj(m, m');
    if |path| > 1 && path[0] in m && m[path[0]].Obj? {
      assert MeaningOf(m[path[0]]) == MeaningOf(m'[path[0]]);
      GetAlike(m[path[0]].fields, m'[path[0]].fields, path[1..]);
    }
  }

  lemma PutAlike(m: Fieldmap, m': Fieldmap, k: string, v: Value, v': Value)
    requires Alike(m, m') && MeaningOf(v) == MeaningOf(v')
    ensures Alike(m[k := v], m'[k := v'])
  {
    PutMeaning(m, k, v);
    PutMeaning(m', k, v');
  }

  lemma PutMeaning(m: Fieldmap, k: string, v: Value)
    ensures MeaningOf(Obj(m[k := v])) == MObj(MeaningOf(Obj(m)).fields[k := MeaningOf(v)])
  {
    var f, g := MeaningOf(Obj(m)).fields, MeaningOf(Obj(m[k := v])).fields;
    assert g.Keys == m[k := v].Keys == f[k := MeaningOf(v)].Keys;
    forall j | j in g ensures g[j] == f[k := MeaningOf(v)][j] {}
  }

  lemma NestedAlike(m: Fieldmap, m': Fieldmap, k: string)
    requires Alike(m, m')
    ensures Alike(Nested(m, k), Nested(m', k))
  {
    MeaningObj(m, m');
    MeaningObj(map[], map[]);
  }

  lemma {:induction false} SetAlike(m: Fieldmap, m': Fieldmap, path: seq<string>, v: Value, v': Value)
    requires Alike(m, m') && MeaningOf(v) == MeaningOf(v')
    ensures Alike(SetNested(m, path, v), SetNested(m', path, v'))
    decreases |path|
  {
    if |path| == 1 {
      PutAlike(m, m', path[0], v, v');
    } else if |path| > 1 {
      var n, n' := Nested(m, path[0]), Nested(m', path[0]);
      NestedAlike(m, m', path[0]);
      SetAlike(n, n', path[1..], v, v');
      PutAlike(m, m', path[0], Obj(SetNested(n, path[1..], v)), Obj(SetNested(n', path[1..], v')));
    }
  }

  lemma {:induction false} FilterAlike(acc: Fieldmap, acc': Fieldmap, m: Fieldmap, m': Fieldmap, fields: seq<string>)
    requires Alike(acc, acc')
    requires forall f | f in fields :: MeaningOf(GetNested(m, Split(f, '.'))) == MeaningOf(GetNested(m', Split(f, '.')))
    ensures Alike(FilterFrom(acc, m, fields), FilterFrom(acc', m', fields))
    decreases |fields|
  {
    if fields != [] {
      var parts := Split(fields[0], '.');
      assert fields[0] in fields;
      var v, v' := GetNested(m, parts), GetNested(m', parts);
      assert v == Null <==> v' == Null;
      if v != Null {
        SetAlike(acc, acc', parts, v, v');
        FilterAlike(SetNested(acc, parts, v), SetNested(acc', parts, v'), m, m', fields[1..]);
      } else {
        FilterAlike(acc, acc', m, m', fields[1..]);
      }
    }
  }

  /** Filtering is exact up to array order as well. */
  lemma FilterExactAlike(m: Fieldmap, m': Fieldmap, fields: seq<string>)
    ensures Alike(FilterFrom(map[], m, fields), FilterFrom(map[], m', fields)) <==>
      forall f | f in fields :: MeaningOf(GetNested(m, Split(f, '.'))) == MeaningOf(GetNested(m', Split(f, '.')))
  {
    if Alike(FilterFrom(map[], m, fields), FilterFrom(map[], m', fields)) {
      forall f | f in fields
        ensures MeaningOf(GetNested(m, Split(f, '.'))) == MeaningOf(GetNested(m', Split(f, '.')))
      {
        FilterReads(map[], m, fields, f);
        FilterReads(map[], m', fields, f);
        GetAlike(FilterFrom(map[], m, fields), FilterFrom(map[], m', fields), Split(f, '.'));
      }
    }
    if forall f | f in fields :: MeaningOf(GetNested(m, Split(f, '.'))) == MeaningOf(GetNested(m', Split(f, '.'))) {
      FilterAlike(map[], map[], m, m', fields);
    }
  }

  // ----- The cache key -----

  lemma {:induction false} PartClean(f: Fieldmap, m: Fieldmap)
    requires Part(f, m) && Clean(Obj(m))
    ensures Clean(Obj(f))
    decreases Obj(f)
  {
    forall k | k in f ensures Free(k) && Clean(f[k]) {
      if f[k] != m[k] { PartClean(f[k].fields, m[k].fields); }
    }
  }

  /** The text hashInput feeds to SHA-256. CacheKeyFields that are empty mean no filtering. */
  ghost function KeyText(query: string, input: Value, fields: seq<string>): string
    requires Marshals(Filtered(input, fields))
  {
    query + ":" + Norm(Filtered(input, fields))
  }

  function Filtered(input: Value, fields: seq<string>): Value
  {
    if fields == [] then input else FilterFields(input, fields)
  }

  /** What two requests must share for the decision cache to treat them as one: the query and, of two maps, the
      configured fields; else the whole input, all up to array order. */
  ghost predicate SameRequest(query: string, v: Value, query': string, v': Value, fields: seq<string>)
  {
    query == query' &&
    if v.Obj? && v'.Obj? && fields != [] then AgreeOn(v.fields, v'.fields, fields) else MeaningOf(v) == MeaningOf(v')
  }

  ghost predicate AgreeOn(m: Fieldmap, m': Fieldmap, fields: seq<string>)
  {
    forall f | f in fields :: MeaningOf(GetNested(m, Split(f, '.'))) == MeaningOf(GetNested(m', Split(f, '.')))
  }

  /** Filtering keeps an input clean. */
  lemma FilteredClean(v: Value, fields: seq<string>)
    requires Clean(v)
    ensures Clean(Filtered(v, fields))
  {
    if v.Obj? && fields != [] {
      FilterReads(map[], v.fields, fields, fields[0]);
      PartClean(FilterFrom(map[], v.fields, fields), v.fields);
    }
  }

  lemma FilteredMeaning(v: Value, v': Value, fields: seq<string>)
    ensures MeaningOf(Filtered(v, fields)) == MeaningOf(Filtered(v', fields)) <==>
      if v.Obj? && v'.Obj? && fields != [] then AgreeOn(v.fields, v'.fields, fields) else MeaningOf(v) == MeaningOf(v')
  {
    if v.Obj? && v'.Obj? && fields != [] { FilterExactAlike(v.fields, v'.fields, fields); }
  }

  /** End to end: if what the configured fields leave of the inputs is clean, and no input is a string with a colon,
      two requests get the same key text exactly when they are the same request, whatever the queries hold. */
  lemma KeyFaithful(query: string, v: Value, query': string, v': Value, fields: seq<string>)
    requires Clean(Filtered(v, fields)) && Clean(Filtered(v', fields)) && Seamless(v) && Seamless(v')
    ensures Marshals(Filtered(v, fields)) && Marshals(Filtered(v', fields))
    ensures KeyText(query, v, fields) == KeyText(query', v', fields) <==> SameRequest(query, v, query', v', fields)
  {
    var f, f' := Filtered(v, fields), Filtered(v', fields);
    NormFaithful(f, f');
    FilteredMeaning(v, v', fields);
    if KeyText(query, v, fields) == KeyText(query', v', fields) { NormSuffix(query, f, query', f'); }
  }

  /** A string with a colon shares its key with another query's: part of it reads as the end of the query. */
  lemma QueryClash(query: string, b: string, c: string, fields: seq<string>)
    ensures KeyText(query, Str(b + ":" + c), fields) == KeyText(query + ":" + b, Str(c), fields)
    ensures !SameRequest(query, Str(b + ":" + c), query + ":" + b, Str(c), fields)
  {
    assert |query + ":" + b| > |query|;
  }
}
