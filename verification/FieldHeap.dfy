/** authz/helper.go and authz/agent.go on Go's own maps: setNestedValue writes in place,
    and the filtered map it builds shares nested maps with the caller's input. */
module FieldHeap {
  import opened Text
  import opened NormalForm
  import opened Fields

  /** A value in a Go map: a nested map by reference, anything else by value. */
  datatype Ref = Scalar(v: Value) | MapRef(m: GoMap)

  class GoMap {
    var entries: map<string, Ref>

    constructor ()
      ensures entries == map[]
    {
      entries := map[];
    }
  }

  /** The contents of some maps at one moment. */
  type Heap = map<GoMap, map<string, Ref>>

  ghost function Snap(ms: set<GoMap>): Heap
    reads ms
  {
    map m | m in ms :: m.entries
  }

  /** The maps of h still hold what h says. */
  ghost predicate Agrees(h: Heap)
    reads h.Keys
  {
    forall m | m in h :: m.entries == h[m]
  }

  /** In h, the map m holds the value v. */
  ghost predicate Rep(h: Heap, m: GoMap, v: Fieldmap)
    decreases Obj(v), 0
  {
    m in h && h[m].Keys == v.Keys && forall k | k in v :: RepRef(h, h[m][k], v[k])
  }

  ghost predicate RepRef(h: Heap, r: Ref, x: Value)
    decreases x, 1
  {
    match r
    case Scalar(y) => y == x && !x.Obj?
    case MapRef(n) => x.Obj? && Rep(h, n, x.fields)
  }

  /** The reference getNestedValue returns. */
  ghost function Find(h: Heap, m: GoMap, path: seq<string>): Ref
    decreases |path|
  {
    if path == [] || m !in h || path[0] !in h[m] then Scalar(Null)
    else if |path| == 1 then h[m][path[0]]
    else match h[m][path[0]]
      case MapRef(n) => Find(h, n, path[1..])
      case Scalar(_) => Scalar(Null)
  }

  method GetNestedValue(data: GoMap, path: seq<string>, ghost h: Heap, ghost v: Fieldmap) returns (r: Ref)
    requires Rep(h, data, v) && Agrees(h)
    ensures r == Find(h, data, path)
    ensures RepRef(h, r, GetNested(v, path))
    decreases |path|
  {
    if |path| == 0 { return Scalar(Null); }
    if path[0] !in data.entries { return Scalar(Null); }
    var value := data.entries[path[0]];
    assert RepRef(h, value, v[path[0]]);
    if |path| == 1 { return value; }
    match value
    case MapRef(n) => r := GetNestedValue(n, path[1..], h, v[path[0]].fields);
    case Scalar(_) => r := Scalar(Null);
  }

  /** The maps the filtered map owns: those made by filterInputFields, as a tree with all
      its maps in foot. Everything else it reaches belongs to the input. */
  datatype Tree = Tree(root: GoMap, kids: map<string, Tree>, foot: set<GoMap>)

  ghost predicate Separate(t: Tree, input: set<GoMap>)
  {
    && t.root in t.foot && t.foot !! input
    && (forall k | k in t.kids :: Separate(t.kids[k], input) && t.kids[k].foot <= t.foot - {t.root})
    && (forall k, j | k in t.kids && j in t.kids && k != j :: t.kids[k].foot !! t.kids[j].foot)
  }

  /** In h the owned tree holds acc; what is not owned below it is the very entry the input
      has there. i is the heap of the input, inp the input map that holds v. */
  ghost predicate Holds(h: Heap, t: Tree, acc: Fieldmap, i: Heap, inp: GoMap, v: Fieldmap)
    decreases t
  {
    && t.root in h && h[t.root].Keys == acc.Keys
    && inp in i && i[inp].Keys == v.Keys
    && t.kids.Keys <= acc.Keys <= v.Keys
    && forall k | k in acc ::
         if k in t.kids then
           && h[t.root][k] == MapRef(t.kids[k].root)
           && acc[k].Obj? && v[k].Obj? && i[inp][k].MapRef?
           && Holds(h, t.kids[k], acc[k].fields, i, i[inp][k].m, v[k].fields)
         else
           h[t.root][k] == i[inp][k] && acc[k] == v[k]
  }

  /** Holds looks only at the owned maps. */
  lemma {:induction false} HoldsFrame(h: Heap, h': Heap, t: Tree, acc: Fieldmap, i: Heap, inp: GoMap, v: Fieldmap)
    requires Separate(t, i.Keys) && Holds(h, t, acc, i, inp, v)
    requires forall m | m in t.foot && m in h :: m in h' && h'[m] == h[m]
    ensures Holds(h', t, acc, i, inp, v)
    decreases t
  {
    forall k | k in acc && k in t.kids
      ensures Holds(h', t.kids[k], acc[k].fields, i, i[inp][k].m, v[k].fields)
    {
      HoldsFrame(h, h', t.kids[k], acc[k].fields, i, i[inp][k].m, v[k].fields);
    }
  }

  /** The tree once the entry of its root at k is the input's own. */
  function Cut(t: Tree, k: string): Tree { Tree(t.root, t.kids - {k}, t.foot) }

  /** The tree once its root holds the owned map kid at k. */
  function Graft(t: Tree, k: string, kid: Tree): Tree { Tree(t.root, t.kids[k := kid], t.foot + kid.foot) }

  /** kid can hang below t at k. */
  ghost predicate Apart(t: Tree, k: string, kid: Tree)
  {
    t.root !in kid.foot && forall j | j in t.kids && j != k :: t.kids[j].foot !! kid.foot
  }

  lemma GraftSeparate(t: Tree, k: string, kid: Tree, input: set<GoMap>)
    requires Separate(t, input) && Separate(kid, input) && Apart(t, k, kid)
    ensures Separate(Graft(t, k, kid), input)
  {
  }

  lemma AfterCut(h: Heap, h': Heap, t: Tree, acc: Fieldmap, k: string, i: Heap, inp: GoMap, v: Fieldmap)
    requires Separate(t, i.Keys) && Holds(h, t, acc, i, inp, v) && k in v
    requires forall m | m in t.foot && m != t.root && m in h :: m in h' && h'[m] == h[m]
    requires t.root in h' && h'[t.root] == h[t.root][k := i[inp][k]]
    ensures Holds(h', Cut(t, k), acc[k := v[k]], i, inp, v)
  {
    forall j | j in acc && j in t.kids
      ensures Holds(h', t.kids[j], acc[j].fields, i, i[inp][j].m, v[j].fields)
    {
      HoldsFrame(h, h', t.kids[j], acc[j].fields, i, i[inp][j].m, v[j].fields);
    }
  }

  /** The other kids of a tree are as before when only the root and the kid at k changed. */
  lemma OtherKids(h: Heap, h': Heap, t: Tree, acc: Fieldmap, k: string, i: Heap, inp: GoMap, v: Fieldmap)
    requires Separate(t, i.Keys) && Holds(h, t, acc, i, inp, v)
    requires forall j | j in t.kids && j != k ::
      forall m | m in t.kids[j].foot && m in h :: m in h' && h'[m] == h[m]
    ensures forall j | j in acc && j in t.kids && j != k ::
      Holds(h', t.kids[j], acc[j].fields, i, i[inp][j].m, v[j].fields)
  {
    forall j | j in acc && j in t.kids && j != k
      ensures Holds(h', t.kids[j], acc[j].fields, i, i[inp][j].m, v[j].fields)
    {
      HoldsFrame(h, h', t.kids[j], acc[j].fields, i, i[inp][j].m, v[j].fields);
    }
  }

  lemma GraftShape(h: Heap, h': Heap, t: Tree, acc: Fieldmap, k: string, kid: Tree, sub: Fieldmap,
      i: Heap, inp: GoMap, v: Fieldmap)
    requires Holds(h, t, acc, i, inp, v) && k in v && v[k].Obj? && i[inp][k].MapRef?
    requires t.root in h' && h'[t.root] == h[t.root][k := MapRef(kid.root)]
    ensures h'[t.root].Keys == acc[k := Obj(sub)].Keys
    ensures Graft(t, k, kid).kids.Keys <= acc[k := Obj(sub)].Keys <= v.Keys
    ensures forall j | j in acc && j != k ::
      if j in t.kids then h'[t.root][j] == MapRef(t.kids[j].root) && acc[j].Obj? && v[j].Obj? && i[inp][j].MapRef?
      else h'[t.root][j] == i[inp][j] && acc[j] == v[j]
  {
  }

  lemma AfterGraft(h: Heap, h': Heap, t: Tree, acc: Fieldmap, k: string, kid: Tree, sub: Fieldmap,
      i: Heap, inp: GoMap, v: Fieldmap)
    requires Separate(t, i.Keys) && Holds(h, t, acc, i, inp, v)
    requires k in v && v[k].Obj? && i[inp][k].MapRef?
    requires forall j | j in t.kids && j != k ::
      forall m | m in t.kids[j].foot && m in h :: m in h' && h'[m] == h[m]
    requires t.root in h' && h'[t.root] == h[t.root][k := MapRef(kid.root)]
    requires Holds(h', kid, sub, i, i[inp][k].m, v[k].fields)
    ensures Holds(h', Graft(t, k, kid), acc[k := Obj(sub)], i, inp, v)
  {
    OtherKids(h, h', t, acc, k, i, inp, v);
    GraftShape(h, h', t, acc, k, kid, sub, i, inp, v);
  }

  function Owned(own: Option<Tree>): set<GoMap>
  {
    if own.Some? then own.value.foot else {}
  }

  /** data is one of the input's own maps, or the root of the owned tree own, which holds acc. */
  ghost predicate Target(data: GoMap, own: Option<Tree>, acc: Fieldmap, i: Heap, inp: GoMap, v: Fieldmap)
    reads Owned(own)
  {
    match own
    case None => data == inp
    case Some(t) => t.root == data && Separate(t, i.Keys) && Holds(Snap(t.foot), t, acc, i, inp, v)
  }

  /** Every map of ms holds what it held in h. */
  ghost predicate Kept(h: Heap, ms: set<GoMap>)
    reads ms
  {
    forall m | m in ms :: m in h && m.entries == h[m]
  }

  lemma CutTarget(h: Heap, t: Tree, acc: Fieldmap, k: string, i: Heap, inp: GoMap, v: Fieldmap)
    requires Separate(t, i.Keys) && Holds(h, t, acc, i, inp, v) && k in v
    requires Kept(h, t.foot - {t.root}) && t.root.entries == h[t.root][k := i[inp][k]]
    ensures Target(t.root, Some(Cut(t, k)), acc[k := v[k]], i, inp, v)
  {
    AfterCut(h, Snap(t.foot), t, acc, k, i, inp, v);
  }

  lemma KidTarget(t: Tree, acc: Fieldmap, k: string, i: Heap, inp: GoMap, v: Fieldmap)
    requires Target(t.root, Some(t), acc, i, inp, v) && k in t.kids
    ensures k in acc && acc[k].Obj? && t.root.entries[k] == MapRef(t.kids[k].root)
    ensures Target(t.kids[k].root, Some(t.kids[k]), acc[k].fields, i, i[inp][k].m, v[k].fields)
  {
    assert k in acc;
    HoldsFrame(Snap(t.foot), Snap(t.kids[k].foot), t.kids[k], acc[k].fields, i, i[inp][k].m, v[k].fields);
  }

  /** The owned maps apart from the root and those below it at k. */
  function Rest(t: Tree, k: string): set<GoMap>
  {
    t.foot - {t.root} - (if k in t.kids then t.kids[k].foot else {})
  }

  lemma GraftTarget(h: Heap, t: Tree, acc: Fieldmap, k: string, s: Tree, sub: Fieldmap, i: Heap, inp: GoMap,
      v: Fieldmap)
    requires Separate(t, i.Keys) && Holds(h, t, acc, i, inp, v)
    requires k in v && v[k].Obj? && i[inp][k].MapRef?
    requires Target(s.root, Some(s), sub, i, i[inp][k].m, v[k].fields)
    requires s.foot !! Rest(t, k) && t.root !in s.foot
    requires Kept(h, Rest(t, k))
    requires t.root.entries == h[t.root][k := MapRef(s.root)]
    ensures Target(t.root, Some(Graft(t, k, s)), acc[k := Obj(sub)], i, inp, v)
  {
    assert forall j | j in t.kids && j != k :: t.kids[j].foot <= Rest(t, k);
    GraftSeparate(t, k, s, i.Keys);
    var h' := Snap(t.foot + s.foot);
    HoldsFrame(Snap(s.foot), h', s, sub, i, i[inp][k].m, v[k].fields);
    forall j | j in t.kids && j != k
      ensures forall m | m in t.kids[j].foot && m in h :: m in h' && h'[m] == h[m]
    {
      assert t.kids[j].foot <= Rest(t, k);
    }
    AfterGraft(h, h', t, acc, k, s, sub, i, inp, v);
  }

  /** aside holds what the owned tree t, which held h, has now apart from its subtree at k. There its
      root refers to the owned map sub or, if there is none, still to the input's own. */
  ghost predicate Opened(h: Heap, aside: Heap, t: Tree, acc: Fieldmap, k: string, sub: Option<GoMap>, v: Fieldmap)
  {
    && aside.Keys == Rest(t, k) + {t.root} && t.root in h
    && (forall m | m in Rest(t, k) :: m in h && aside[m] == h[m])
    && match sub
       case None => k in acc && k in v && acc[k] == v[k] && k !in t.kids && aside[t.root] == h[t.root]
       case Some(n) => aside[t.root] == h[t.root][k := MapRef(n)]
  }

  function RootOf(own: Option<Tree>): Option<GoMap>
  {
    if own.Some? then Some(own.value.root) else None
  }

  lemma Open(h: Heap, t: Tree, acc: Fieldmap, k: string, sub: Option<GoMap>, i: Heap, inp: GoMap, v: Fieldmap)
    requires Separate(t, i.Keys) && Holds(h, t, acc, i, inp, v)
    requires Kept(h, t.foot - {t.root})
    requires match sub
      case None => k in acc && k !in t.kids && t.root.entries == h[t.root]
      case Some(n) => t.root.entries == h[t.root][k := MapRef(n)]
    ensures var aside := Snap(Rest(t, k) + {t.root});
      Opened(h, aside, t, acc, k, sub, v) && Agrees(aside) && aside.Keys !! i.Keys
    ensures k in t.kids ==> t.kids[k].foot !! Rest(t, k) + {t.root}
  {
  }

  /** Makes a new nested map at key. */
  method AddNested(data: GoMap, key: string) returns (nested: GoMap)
    modifies data
    ensures fresh(nested) && nested.entries == map[]
    ensures data.entries == old(data.entries)[key := MapRef(nested)]
  {
    nested := new GoMap();
    data.entries := data.entries[key := MapRef(nested)];
  }

  lemma FreshTarget(n: GoMap, i: Heap, inp: GoMap, v: Fieldmap)
    requires n !in i && n.entries == map[] && Rep(i, inp, v)
    ensures Target(n, Some(Tree(n, map[], {n})), map[], i, inp, v)
  {
  }

  /** The part of setNestedValue that finds or makes the nested map at key. */
  method EnsureNested(data: GoMap, key: string,
      ghost own: Option<Tree>, ghost acc: Fieldmap, ghost i: Heap, ghost inp: GoMap, ghost v: Fieldmap)
    returns (nested: GoMap, ghost subOwn: Option<Tree>, ghost aside: Heap, ghost made: set<GoMap>)
    requires Agrees(i) && Rep(i, inp, v) && key in v && v[key].Obj?
    requires Target(data, own, acc, i, inp, v)
    modifies {data} * Owned(own)
    ensures Agrees(i)
    ensures i[inp][key].MapRef? && Rep(i, i[inp][key].m, v[key].fields)
    ensures Target(nested, subOwn, Nested(acc, key), i, i[inp][key].m, v[key].fields)
    ensures own.None? ==> subOwn.None?
    ensures own.Some? ==> Opened(old(Snap(own.value.foot)), aside, own.value, acc, key, RootOf(subOwn), v)
    ensures Agrees(aside) && aside.Keys !! i.Keys + Owned(subOwn)
    ensures fresh(made) && Owned(subOwn) <= Owned(own) + made
  {
    assert RepRef(i, i[inp][key], v[key]);
    ghost var h := Snap(Owned(own));
    subOwn, made := None, {};
    if key in data.entries && data.entries[key].MapRef? {
      nested := data.entries[key].m;
      if own.Some? && key in own.value.kids {
        KidTarget(own.value, acc, key, i, inp, v);
        subOwn := Some(own.value.kids[key]);
        assert data.entries == data.entries[key := MapRef(nested)];
      }
    } else {
      assert own.Some? && key !in acc;
      nested := AddNested(data, key);
      subOwn, made := Some(Tree(nested, map[], {nested})), {nested};
      FreshTarget(nested, i, i[inp][key].m, v[key].fields);
    }
    aside := map[];
    if own.Some? {
      Open(h, own.value, acc, key, RootOf(subOwn), i, inp, v);
      aside := Snap(Rest(own.value, key) + {data});
    }
  }

  /** The part of setNestedValue that writes the last segment. */
  method PutEntry(data: GoMap, key: string, value: Ref,
      ghost own: Option<Tree>, ghost acc: Fieldmap, ghost i: Heap, ghost inp: GoMap, ghost v: Fieldmap)
    returns (ghost own': Option<Tree>)
    requires Agrees(i) && Rep(i, inp, v) && key in v && value == i[inp][key]
    requires Target(data, own, acc, i, inp, v)
    modifies data
    ensures Agrees(i)
    ensures own'.Some? == own.Some?
    ensures own.Some? ==> own'.value.foot <= own.value.foot
    ensures own.Some? ==> Target(data, own', acc[key := v[key]], i, inp, v)
  {
    own' := own;
    ghost var h := if own.Some? then Snap(own.value.foot) else map[];
    assert own.None? ==> data.entries[key := value] == data.entries;
    data.entries := data.entries[key := value];
    if own.Some? {
      CutTarget(h, own.value, acc, key, i, inp, v);
      own' := Some(Cut(own.value, key));
    }
  }

  /** The owned tree after the nested map at k, owned as kid or else the input's, was written. */
  ghost function Rejoined(own: Option<Tree>, k: string, kid: Option<Tree>): Option<Tree>
  {
    if own.Some? && kid.Some? then Some(Graft(own.value, k, kid.value)) else own
  }

  lemma Rejoin(h: Heap, aside: Heap, t: Tree, acc: Fieldmap, path: seq<string>, kid: Option<Tree>,
      i: Heap, inp: GoMap, v: Fieldmap)
    requires |path| > 1 && GetNested(v, path) != Null
    requires Separate(t, i.Keys) && Holds(h, t, acc, i, inp, v) && Rep(i, inp, v)
    requires i[inp][path[0]].MapRef? && Agrees(aside)
    requires Opened(h, aside, t, acc, path[0], RootOf(kid), v)
    requires kid.Some? ==>
      && kid.value.foot !! aside.Keys
      && Target(kid.value.root, kid, SetNested(Nested(acc, path[0]), path[1..], GetNested(v, path)),
                i, i[inp][path[0]].m, v[path[0]].fields)
    ensures Target(t.root, Rejoined(Some(t), path[0], kid), SetNested(acc, path, GetNested(v, path)), i, inp, v)
  {
    var k := path[0];
    assert t.root.entries == aside[t.root];
    match kid
    case Some(s) =>
      GraftTarget(h, t, acc, k, s, SetNested(Nested(acc, k), path[1..], GetNested(v, path)), i, inp, v);
    case None =>
      SetSame(v[k].fields, path[1..]);
      HoldsFrame(h, Snap(t.foot), t, acc, i, inp, v);
      assert SetNested(acc, path, GetNested(v, path)) == acc;
  }

  /** setNestedValue, called as filterInputFields calls it: value is the input's entry at path.
      No map of the input changes, and an owned tree goes on to hold SetNested's result. */
  method SetNestedValue(data: GoMap, path: seq<string>, value: Ref,
      ghost own: Option<Tree>, ghost acc: Fieldmap, ghost i: Heap, ghost inp: GoMap, ghost v: Fieldmap)
    returns (ghost own': Option<Tree>, ghost made: set<GoMap>)
    requires Agrees(i) && Rep(i, inp, v)
    requires path != [] ==> GetNested(v, path) != Null && value == Find(i, inp, path)
    requires Target(data, own, acc, i, inp, v)
    modifies i.Keys, Owned(own)
    ensures Agrees(i)
    ensures own'.Some? == own.Some?
    ensures fresh(made) && Owned(own') <= Owned(own) + made
    ensures own.Some? ==> Target(data, own', SetNested(acc, path, GetNested(v, path)), i, inp, v)
    decreases |path|, 0
  {
    own', made := own, {};
    if |path| == 0 { return; }
    if |path| == 1 {
      own' := PutEntry(data, path[0], value, own, acc, i, inp, v);
      return;
    }
    ghost var h := Snap(Owned(own));
    var nested;
    ghost var subOwn, aside, deeper;
    nested, subOwn, aside, made := EnsureNested(data, path[0], own, acc, i, inp, v);
    own', deeper := SetBelow(nested, path, value, own, acc, i, inp, v, h, subOwn, aside);
    made := made + deeper;
  }

  /** The recursive call of setNestedValue, on the nested map at path[0]. */
  method SetBelow(nested: GoMap, path: seq<string>, value: Ref,
      ghost own: Option<Tree>, ghost acc: Fieldmap, ghost i: Heap, ghost inp: GoMap, ghost v: Fieldmap,
      ghost h: Heap, ghost subOwn: Option<Tree>, ghost aside: Heap)
    returns (ghost own': Option<Tree>, ghost made: set<GoMap>)
    requires Agrees(i) && Rep(i, inp, v)
    requires |path| > 1 && GetNested(v, path) != Null && value == Find(i, inp, path) && i[inp][path[0]].MapRef?
    requires Rep(i, i[inp][path[0]].m, v[path[0]].fields)
    requires Target(nested, subOwn, Nested(acc, path[0]), i, i[inp][path[0]].m, v[path[0]].fields)
    requires own.None? ==> subOwn.None?
    requires own.Some? ==>
      && Separate(own.value, i.Keys) && Holds(h, own.value, acc, i, inp, v)
      && Opened(h, aside, own.value, acc, path[0], RootOf(subOwn), v)
    requires Agrees(aside) && aside.Keys !! i.Keys + Owned(subOwn)
    modifies i.Keys, Owned(subOwn)
    ensures Agrees(i)
    ensures own'.Some? == own.Some?
    ensures fresh(made) && Owned(own') <= Owned(own) + Owned(subOwn) + made
    ensures own.Some? ==> Target(own.value.root, own', SetNested(acc, path, GetNested(v, path)), i, inp, v)
    decreases |path| - 1, 1
  {
    ghost var kid;
    kid, made := SetNestedValue(nested, path[1..], value, subOwn, Nested(acc, path[0]), i,
                                i[inp][path[0]].m, v[path[0]].fields);
    own' := Rejoined(own, path[0], kid);
    if own.Some? {
      Rejoin(h, aside, own.value, acc, path, kid, i, inp, v);
    }
  }

  // ----- filterInputFields -----

  lemma {:induction false} RepWider(h: Heap, h': Heap, m: GoMap, v: Fieldmap)
    requires Rep(h, m, v)
    requires forall x | x in h :: x in h' && h'[x] == h[x]
    ensures Rep(h', m, v)
    decreases Obj(v)
  {
    forall k | k in v ensures RepRef(h', h'[m][k], v[k]) {
      assert RepRef(h, h[m][k], v[k]);
      if v[k].Obj? { RepWider(h, h', h[m][k].m, v[k].fields); }
    }
  }

  lemma {:induction false} HoldsRep(h: Heap, t: Tree, acc: Fieldmap, i: Heap, inp: GoMap, v: Fieldmap, all: Heap)
    requires Holds(h, t, acc, i, inp, v) && Rep(i, inp, v)
    requires forall x | x in h :: x in all && all[x] == h[x]
    requires forall x | x in i :: x in all && all[x] == i[x]
    ensures Rep(all, t.root, acc)
    decreases t
  {
    forall k | k in acc ensures RepRef(all, all[t.root][k], acc[k]) {
      assert RepRef(i, i[inp][k], v[k]);
      if k in t.kids {
        HoldsRep(h, t.kids[k], acc[k].fields, i, i[inp][k].m, v[k].fields, all);
      } else if v[k].Obj? {
        RepWider(i, all, i[inp][k].m, v[k].fields);
      }
    }
  }

  /** filterInputFields on a map: the result holds exactly the filtered value, every map it owns
      is new, and not one of the input's maps has changed although the result shares them. */
  method FilterInputFields(inputMap: GoMap, fields: seq<string>, ghost i: Heap, ghost v: Fieldmap)
    returns (filtered: GoMap, ghost made: set<GoMap>)
    requires Agrees(i) && Rep(i, inputMap, v)
    modifies i.Keys
    ensures Agrees(i)
    ensures fresh(made) && filtered in made
    ensures Rep(Snap(made + i.Keys), filtered, FilterFrom(map[], v, fields))
  {
    filtered := new GoMap();
    ghost var own, acc := Some(Tree(filtered, map[], {filtered})), map[];
    made := {filtered};
    for n := 0 to |fields|
      invariant Agrees(i)
      invariant own.Some? && Target(filtered, own, acc, i, inputMap, v)
      invariant fresh(made) && Owned(own) <= made && filtered in made
      invariant FilterFrom(acc, v, fields[n..]) == FilterFrom(map[], v, fields)
    {
      var parts := Split(fields[n], '.');
      assert fields[n..][0] == fields[n] && fields[n..][1..] == fields[n + 1..];
      var value := GetNestedValue(inputMap, parts, i, v);
      if value != Scalar(Null) {
        ghost var more;
        own, more := SetNestedValue(filtered, parts, value, own, acc, i, inputMap, v);
        made := made + more;
        acc := SetNested(acc, parts, GetNested(v, parts));
      }
    }
    HoldsRep(Snap(Owned(own)), own.value, acc, i, inputMap, v, Snap(made + i.Keys));
  }
}
