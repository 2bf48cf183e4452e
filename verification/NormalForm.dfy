/** authz/helper.go: the printer behind the decision-cache key. */
module NormalForm {
  import opened Text

  /** A Go interface{} value as policy inputs use it. A number is known by the text
      fmt prints for it; Foreign is any other Go type, with what json.Marshal makes of it. */
  datatype Value =
    | Null
    | Bool(b: bool)
    | Num(text: string)
    | Str(s: string)
    | Arr(items: seq<Value>)
    | Obj(fields: map<string, Value>)
    | Foreign(json: Option<string>)

  /** What a value says once the order of array items is forgotten, at every depth. */
  datatype Meaning =
    | MNull
    | MBool(b: bool)
    | MNum(text: string)
    | MStr(s: string)
    | MBag(items: multiset<Meaning>)
    | MObj(fields: map<string, Meaning>)
    | MForeign(json: Option<string>)

  ghost function MeaningOf(v: Value): Meaning
  {
    match v
    case Null => MNull
    case Bool(b) => MBool(b)
    case Num(t) => MNum(t)
    case Str(s) => MStr(s)
    case Arr(items) => MBag(multiset(seq(|items|, i requires 0 <= i < |items| => MeaningOf(items[i]))))
    case Obj(m) => MObj(map k | k in m :: MeaningOf(m[k]))
    case Foreign(j) => MForeign(j)
  }

  ghost function Meanings(items: seq<Value>): (r: seq<Meaning>)
    ensures |r| == |items| && forall i | 0 <= i < |items| :: r[i] == MeaningOf(items[i])
  {
    seq(|items|, i requires 0 <= i < |items| => MeaningOf(items[i]))
  }

  /** No part of the value is of a type that json.Marshal refuses. */
  ghost predicate Marshals(v: Value)
  {
    match v
    case Arr(items) => forall i | 0 <= i < |items| :: Marshals(items[i])
    case Obj(m) => forall k | k in m :: Marshals(m[k])
    case Foreign(j) => j.Some?
    case _ => true
  }

  ghost function KeySeq(ks: set<string>): (r: seq<string>)
    ensures multiset(r) == multiset(ks)
  {
    if ks == {} then []
    else
      var k :| k in ks;
      assert ks == (ks - {k}) + {k};
      [k] + KeySeq(ks - {k})
  }

  /** normalizeForHashing on values it accepts. */
  ghost function Norm(v: Value): string
    requires Marshals(v)
  {
    match v
    case Null => "null"
    case Bool(b) => if b then "true" else "false"
    case Num(t) => t
    case Str(s) => s
    case Arr(items) =>
      "[" + Join(Sort(seq(|items|, i requires 0 <= i < |items| => Norm(items[i]))), ',') + "]"
    case Obj(m) =>
      var ks := SortedKeys(m);
      "{" + Join(seq(|ks|, i requires 0 <= i < |ks| => assert ks[i] in m; ks[i] + ":" + Norm(m[ks[i]])), ',') + "}"
    case Foreign(j) => j.value
  }

  ghost function SortedKeys(m: map<string, Value>): (ks: seq<string>)
    ensures Sorted(ks) && multiset(ks) == multiset(m.Keys)
    ensures forall k :: k in ks <==> k in m
  {
    var ks := Sort(KeySeq(m.Keys));
    assert forall k :: k in ks <==> k in multiset(ks);
    ks
  }

  ghost function Norms(items: seq<Value>): (r: seq<string>)
    requires forall i | 0 <= i < |items| :: Marshals(items[i])
    ensures |r| == |items| && forall i | 0 <= i < |items| :: r[i] == Norm(items[i])
  {
    seq(|items|, i requires 0 <= i < |items| => Norm(items[i]))
  }

  ghost function Entries(m: map<string, Value>, ks: seq<string>): (r: seq<string>)
    requires forall k | k in ks :: k in m && Marshals(m[k])
    ensures |r| == |ks| && forall i | 0 <= i < |ks| :: r[i] == ks[i] + ":" + Norm(m[ks[i]])
  {
    seq(|ks|, i requires 0 <= i < |ks| => ks[i] + ":" + Norm(m[ks[i]]))
  }

  /** The forms of all but arrays and objects, which NormArr and NormObj give. */
  lemma NormAtoms(v: Value)
    requires Marshals(v)
    ensures v == Null ==> Norm(v) == "null"
    ensures v == Bool(true) ==> Norm(v) == "true"
    ensures v == Bool(false) ==> Norm(v) == "false"
    ensures v.Num? ==> Norm(v) == v.text
    ensures v.Str? ==> Norm(v) == v.s
    ensures v.Foreign? ==> Some(Norm(v)) == v.json
  {
  }

  lemma NormArr(items: seq<Value>)
    requires Marshals(Arr(items))
    ensures Norm(Arr(items)) == "[" + Join(Sort(Norms(items)), ',') + "]"
  {
    assert seq(|items|, i requires 0 <= i < |items| => Norm(Arr(items).items[i])) == Norms(items);
  }

  lemma MeaningArr(items: seq<Value>)
    ensures MeaningOf(Arr(items)) == MBag(multiset(Meanings(items)))
  {
    assert seq(|items|, i requires 0 <= i < |items| => MeaningOf(Arr(items).items[i])) == Meanings(items);
  }

  lemma NormObj(m: map<string, Value>)
    requires Marshals(Obj(m))
    ensures Norm(Obj(m)) == "{" + Join(Entries(m, SortedKeys(m)), ',') + "}"
  {
    var ks := SortedKeys(m);
    assert seq(|ks|, i requires 0 <= i < |ks| => assert ks[i] in m; ks[i] + ":" + Norm(m[ks[i]])) == Entries(m, ks);
  }

  /** Collects the keys in whatever order Go ranges over the map, then sorts them. */
  method CollectSortedKeys(m: map<string, Value>) returns (keys: seq<string>)
    ensures keys == SortedKeys(m)
  {
    keys := [];
    var todo := m.Keys;
    while todo != {}
      invariant todo <= m.Keys
      invariant multiset(keys) + multiset(todo) == multiset(m.Keys)
      decreases todo
    {
      var k :| k in todo;
      assert todo == (todo - {k}) + {k};
      keys := keys + [k];
      todo := todo - {k};
    }
    keys := Sort(keys);
    SortedUnique(keys, SortedKeys(m));
  }

  /** normalizeForHashing. It fails exactly on values with a part json.Marshal refuses,
      and its result does not depend on the order in which Go ranges over a map. */
  method NormalizeForHashing(v: Value) returns (r: Option<string>)
    ensures r.Some? <==> Marshals(v)
    ensures r.Some? ==> r.value == Norm(v)
    decreases v, 1
  {
    match v
    case Null => r := Some("null");
    case Bool(b) => r := Some(if b then "true" else "false");
    case Num(t) => r := Some(t);
    case Str(s) => r := Some(s);
    case Foreign(j) => r := j;
    case Arr(_) => r := NormalizeItems(v);
    case Obj(_) => r := NormalizeFields(v);
  }

  method NormalizeItems(v: Value) returns (r: Option<string>)
    requires v.Arr?
    ensures r.Some? <==> Marshals(v)
    ensures r.Some? ==> r.value == Norm(v)
    decreases v, 0, 0
  {
    var items: seq<string> := [];
    for n := 0 to |v.items|
      invariant |items| == n
      invariant forall i | 0 <= i < n :: Marshals(v.items[i])
      invariant forall i | 0 <= i < n :: items[i] == Norm(v.items[i])
    {
      var normalized := NormalizeForHashing(v.items[n]);
      if normalized.None? { return None; }
      items := items + [normalized.value];
    }
    NormArr(v.items);
    assert items == Norms(v.items);
    r := Some("[" + Join(Sort(items), ',') + "]");
  }

  method NormalizeFields(v: Value) returns (r: Option<string>)
    requires v.Obj?
    ensures r.Some? <==> Marshals(v)
    ensures r.Some? ==> r.value == Norm(v)
    decreases v, 0, 2
  {
    var keys := CollectSortedKeys(v.fields);
    var items := NormalizeEntries(v, keys);
    if items.None? { return None; }
    NormObj(v.fields);
    r := Some("{" + Join(items.value, ',') + "}");
  }

  method NormalizeEntry(v: Value, k: string) returns (r: Option<string>)
    requires v.Obj? && k in v.fields
    ensures r.Some? <==> Marshals(v.fields[k])
    ensures r.Some? ==> r.value == k + ":" + Norm(v.fields[k])
    decreases v, 0, 0
  {
    var normalized := NormalizeForHashing(v.fields[k]);
    if normalized.None? { return None; }
    r := Some(k + ":" + normalized.value);
  }

  method NormalizeEntries(v: Value, keys: seq<string>) returns (r: Option<seq<string>>)
    requires v.Obj? && forall k :: k in keys <==> k in v.fields
    ensures r.Some? <==> Marshals(v)
    ensures r.Some? ==> r.value == Entries(v.fields, keys)
    decreases v, 0, 1
  {
    var items: seq<string> := [];
    for n := 0 to |keys|
      invariant |items| == n
      invariant forall i | 0 <= i < n :: Marshals(v.fields[keys[i]])
      invariant forall i | 0 <= i < n :: items[i] == keys[i] + ":" + Norm(v.fields[keys[i]])
    {
      assert keys[n] in v.fields;
      var item := NormalizeEntry(v, keys[n]);
      if item.None? { return None; }
      items := items + [item.value];
    }
    forall k | k in v.fields ensures Marshals(v.fields[k]) { assert k in keys; }
    r := Some(items);
  }

  // ----- Equal up to array order implies equal normal form, for all values -----

  function Without<T>(s: seq<T>, j: nat): seq<T>
    requires j < |s|
  {
    s[..j] + s[j + 1..]
  }

  lemma WithoutBag<T>(s: seq<T>, j: nat)
    requires j < |s|
    ensures multiset(s) == multiset(Without(s, j)) + multiset{s[j]}
  {
    assert s == s[..j] + [s[j]] + s[j + 1..];
  }

  lemma BagCancel<T>(a: multiset<T>, b: multiset<T>, x: T)
    requires a + multiset{x} == b + multiset{x}
    ensures a == b
  {
    assert a == a + multiset{x} - multiset{x};
    assert b == b + multiset{x} - multiset{x};
  }

  /** Taking out one element each keeps the pairing of tags and payloads. */
  lemma WithoutAt<X, Y>(f: seq<X>, g: seq<Y>, f': seq<X>, g': seq<Y>, j: nat)
    requires |f| == |g| > 0 && |f'| == |g'| && j < |f'|
    requires forall i, j | 0 <= i < |f| && 0 <= j < |f'| && f[i] == f'[j] :: g[i] == g'[j]
    ensures var (e, h, e', h') := (Without(f, 0), Without(g, 0), Without(f', j), Without(g', j));
      forall i, j | 0 <= i < |e| && 0 <= j < |e'| && e[i] == e'[j] :: h[i] == h'[j]
  {
  }

  /** If equal tags force equal payloads, equal bags of tags force equal bags of payloads. */
  lemma {:induction false} Regroup<X, Y>(f: seq<X>, g: seq<Y>, f': seq<X>, g': seq<Y>)
    requires |f| == |g| && |f'| == |g'|
    requires multiset(f) == multiset(f')
    requires forall i, j | 0 <= i < |f| && 0 <= j < |f'| && f[i] == f'[j] :: g[i] == g'[j]
    ensures multiset(g) == multiset(g')
  {
    if f == [] {
      assert |multiset(f')| == 0;
    } else {
      assert f[0] in multiset(f');
      var j :| 0 <= j < |f'| && f'[j] == f[0];
      WithoutBag(f, 0);
      WithoutBag(g, 0);
      WithoutBag(f', j);
      WithoutBag(g', j);
      BagCancel(multiset(Without(f, 0)), multiset(Without(f', j)), f[0]);
      WithoutAt(f, g, f', g', j);
      Regroup(Without(f, 0), Without(g, 0), Without(f', j), Without(g', j));
    }
  }

  lemma SameMeaningArr(a: seq<Value>, b: seq<Value>)
    requires Marshals(Arr(a)) && Marshals(Arr(b))
    requires MeaningOf(Arr(a)) == MeaningOf(Arr(b))
    requires forall i, j | 0 <= i < |a| && 0 <= j < |b| && Meanings(a)[i] == Meanings(b)[j] ::
      Norms(a)[i] == Norms(b)[j]
    ensures Norm(Arr(a)) == Norm(Arr(b))
  {
    MeaningArr(a);
    MeaningArr(b);
    Regroup(Meanings(a), Norms(a), Meanings(b), Norms(b));
    SortedUnique(Sort(Norms(a)), Sort(Norms(b)));
    NormArr(a);
    NormArr(b);
  }

  lemma SameEntries(m: map<string, Value>, m': map<string, Value>, ks: seq<string>)
    requires forall k | k in ks :: k in m && k in m' && Marshals(m[k]) && Marshals(m'[k]) && Norm(m[k]) == Norm(m'[k])
    ensures Entries(m, ks) == Entries(m', ks)
  {
    forall i | 0 <= i < |ks| ensures Entries(m, ks)[i] == Entries(m', ks)[i] { assert ks[i] in ks; }
  }

  lemma SameMeaningObj(m: map<string, Value>, m': map<string, Value>)
    requires Marshals(Obj(m)) && Marshals(Obj(m'))
    requires m.Keys == m'.Keys
    requires forall k | k in m :: Norm(m[k]) == Norm(m'[k])
    ensures Norm(Obj(m)) == Norm(Obj(m'))
  {
    SortedUnique(SortedKeys(m), SortedKeys(m'));
    SameEntries(m, m', SortedKeys(m));
    NormObj(m);
    NormObj(m');
  }

  lemma MeaningObj(m: map<string, Value>, m': map<string, Value>)
    ensures MeaningOf(Obj(m)) == MeaningOf(Obj(m')) <==>
      m.Keys == m'.Keys && forall k | k in m :: MeaningOf(m[k]) == MeaningOf(m'[k])
  {
    var f, f' := MeaningOf(Obj(m)).fields, MeaningOf(Obj(m')).fields;
    assert f.Keys == m.Keys && f'.Keys == m'.Keys;
    if f == f' {
      forall k | k in m ensures k in m' && MeaningOf(m[k]) == MeaningOf(m'[k]) {
        assert k in f && f[k] == f'[k];
      }
    }
  }

  /** Map iteration order and array order never reach the normal form. */
  lemma {:induction false} SameMeaningSameNorm(v: Value, w: Value)
    requires Marshals(v) && Marshals(w)
    requires MeaningOf(v) == MeaningOf(w)
    ensures Norm(v) == Norm(w)
    decreases v
  {
    match v {
      case Arr(a) =>
        var b := w.items;
        forall i, j | 0 <= i < |a| && 0 <= j < |b| && Meanings(a)[i] == Meanings(b)[j]
          ensures Norms(a)[i] == Norms(b)[j]
        {
          SameMeaningSameNorm(a[i], b[j]);
        }
        SameMeaningArr(a, b);
      case Obj(m) =>
        var m' := w.fields;
        MeaningObj(m, m');
        forall k | k in m ensures Norm(m[k]) == Norm(m'[k]) {
          SameMeaningSameNorm(m[k], m'[k]);
        }
        SameMeaningObj(m, m');
      case _ =>
    }
  }

  // ----- Unique readability on clean values -----

  predicate Delimiter(c: char) { c in ",:[]{}" }

  predicate Digits(s: string) { s != "" && forall c | c in s :: '0' <= c <= '9' }

  /** No leading zero. */
  predicate Whole(s: string) { Digits(s) && (s[0] == '0' ==> |s| == 1) }

  /** Nothing, or a point and digits that do not end in zero. */
  predicate Fraction(s: string)
  {
    s == "" || (s[0] == '.' && Digits(s[1..]) && s[|s| - 1] != '0')
  }

  /** At least two digits behind the sign. */
  predicate Exponent(s: string)
  {
    |s| >= 4 && s[0] == 'e' && (s[1] == '+' || s[1] == '-') && Digits(s[2..])
  }

  /** A whole part, perhaps a fraction, and behind a single digit other than zero perhaps an exponent. */
  predicate Decimal(t: string)
  {
    exists i, j | 0 < i <= j <= |t| :: Whole(t[..i]) && Fraction(t[i..j]) && Scaled(t, i, j)
  }

  predicate Scaled(t: string, i: nat, j: nat)
    requires 0 < i <= j <= |t|
  {
    j == |t| || (i == 1 && t[0] != '0' && Exponent(t[j..]))
  }

  /** What fmt prints for an integer or a float. */
  predicate NumberText(t: string)
  {
    t in {"NaN", "+Inf", "-Inf"} || Decimal(t) || (t != "" && t[0] == '-' && Decimal(t[1..]))
  }

  predicate Free(s: string) { forall c | c in s :: !Delimiter(c) }

  /** Free of delimiters other than the colon. */
  predicate Atomic(s: string) { forall c | c in s :: c == ':' || !Delimiter(c) }

  predicate Literal(s: string) { s in {"null", "true", "false"} || NumberText(s) }

  /** Numbers as Go prints them; keys free of delimiters, strings free of all but the colon and not spelled
      like a literal; and no array of just the empty string. */
  ghost predicate Clean(v: Value)
  {
    match v
    case Num(t) => NumberText(t)
    case Str(s) => Atomic(s) && !Literal(s)
    case Arr(items) => items != [Str("")] && forall i | 0 <= i < |items| :: Clean(items[i])
    case Obj(m) => forall k | k in m :: Free(k) && Clean(m[k])
    case Foreign(_) => false
    case _ => true
  }

  lemma {:induction false} CleanMarshals(v: Value)
    requires Clean(v)
    ensures Marshals(v)
    decreases v
  {
    match v {
      case Arr(items) => forall i | 0 <= i < |items| ensures Marshals(items[i]) { CleanMarshals(items[i]); }
      case Obj(m) => forall k | k in m ensures Marshals(m[k]) { CleanMarshals(m[k]); }
      case _ =>
    }
  }

  /** Read from bracket depth d, s closes every bracket and has no comma at depth 0. */
  predicate Item(s: string, d: nat)
  {
    if s == [] then d == 0
    else if s[0] == '[' || s[0] == '{' then Item(s[1..], d + 1)
    else if s[0] == ']' || s[0] == '}' then d > 0 && Item(s[1..], d - 1)
    else if s[0] == ',' then d > 0 && Item(s[1..], d)
    else Item(s[1..], d)
  }

  /** Reading s first does not change what the rest reads as. */
  ghost predicate Neutral(s: string)
  {
    forall rest: string, d: nat :: Item(s + rest, d) == Item(rest, d)
  }

  lemma {:induction false} AtomicNeutral(s: string)
    requires Atomic(s)
    ensures Neutral(s)
  {
    forall rest: string, d: nat ensures Item(s + rest, d) == Item(rest, d) {
      if s == [] {
        assert s + rest == rest;
      } else {
        AtomicNeutral(s[1..]);
        assert (s + rest)[1..] == s[1..] + rest;
        assert (s + rest)[0] == s[0] && s[0] in s;
        assert Item(s[1..] + rest, d) == Item(rest, d);
      }
    }
  }

  lemma NeutralConcat(a: string, b: string)
    requires Neutral(a) && Neutral(b)
    ensures Neutral(a + b)
  {
    forall rest: string, d: nat ensures Item(a + b + rest, d) == Item(rest, d) {
      assert a + b + rest == a + (b + rest);
    }
  }

  /** Inside brackets a list of neutral items reads through to what follows. */
  lemma {:induction false} JoinScan(items: seq<string>, rest: string, d: nat)
    requires forall x | x in items :: Neutral(x)
    requires d > 0
    ensures Item(Join(items, ',') + rest, d) == Item(rest, d)
  {
    if items == [] {
      assert Join(items, ',') + rest == rest;
    } else if |items| > 1 {
      var tail := Join(items[1..], ',') + rest;
      assert Join(items, ',') + rest == items[0] + ("," + tail);
      assert ("," + tail)[1..] == tail;
      JoinScan(items[1..], rest, d);
      assert Neutral(items[0]);
    } else {
      assert Neutral(items[0]);
    }
  }

  lemma BracketNeutral(open: char, items: seq<string>, close: char)
    requires (open == '[' && close == ']') || (open == '{' && close == '}')
    requires forall x | x in items :: Neutral(x)
    ensures Neutral([open] + Join(items, ',') + [close])
  {
    var s := [open] + Join(items, ',') + [close];
    forall rest: string, d: nat ensures Item(s + rest, d) == Item(rest, d) {
      assert (s + rest)[1..] == Join(items, ',') + ([close] + rest);
      JoinScan(items, [close] + rest, d + 1);
      assert ([close] + rest)[1..] == rest;
    }
  }

  predicate NumberChar(c: char) { '0' <= c <= '9' || c == '.' || c == 'e' || c == '+' || c == '-' }

  predicate NumberChars(s: string) { forall i | 0 <= i < |s| :: NumberChar(s[i]) }

  lemma PartChars(s: string)
    requires Digits(s) || Fraction(s) || Exponent(s)
    ensures NumberChars(s)
  {
    if Digits(s) {
      forall i | 0 <= i < |s| ensures NumberChar(s[i]) { assert s[i] in s; }
    } else if Fraction(s) {
      forall i | 0 < i < |s| ensures NumberChar(s[i]) { assert s[1..][i - 1] in s[1..]; }
    } else {
      forall i | 1 < i < |s| ensures NumberChar(s[i]) { assert s[2..][i - 2] in s[2..]; }
    }
  }

  lemma JoinChars(t: string, i: nat, j: nat)
    requires i <= j <= |t| && NumberChars(t[..i]) && NumberChars(t[i..j]) && NumberChars(t[j..])
    ensures NumberChars(t)
  {
    forall k | 0 <= k < |t| ensures NumberChar(t[k]) {
      if k < i { assert t[k] == t[..i][k]; }
      else if k < j { assert t[k] == t[i..j][k - i]; }
      else { assert t[k] == t[j..][k - j]; }
    }
  }

  lemma DecimalChars(t: string)
    requires Decimal(t)
    ensures t != "" && '0' <= t[0] <= '9' && NumberChars(t)
  {
    var i, j :| 0 < i <= j <= |t| && Whole(t[..i]) && Fraction(t[i..j]) && Scaled(t, i, j);
    assert t[0] == t[..i][0] && t[..i][0] in t[..i];
    PartChars(t[..i]);
    PartChars(t[i..j]);
    if j < |t| { PartChars(t[j..]); }
    JoinChars(t, i, j);
  }

  lemma NumberFree(t: string)
    requires NumberText(t)
    ensures t != "" && Free(t)
  {
    if t == "NaN" {} else if t == "+Inf" {} else if t == "-Inf" {}
    else if Decimal(t) { DecimalChars(t); }
    else {
      DecimalChars(t[1..]);
      assert t == [t[0]] + t[1..];
    }
  }

  lemma LiteralsFree(t: string)
    requires Literal(t)
    ensures t != "" && Free(t)
  {
    if t == "null" {} else if t == "true" {} else if t == "false" {} else { NumberFree(t); }
  }

  lemma AtomText(v: Value)
    requires Clean(v) && Marshals(v) && !v.Arr? && !v.Obj?
    ensures Atomic(Norm(v)) && (Norm(v) == "" ==> v == Str(""))
    ensures !v.Str? ==> Free(Norm(v))
  {
    if !v.Str? { LiteralsFree(Norm(v)); }
  }

  lemma SortNeutral(texts: seq<string>)
    requires forall i | 0 <= i < |texts| :: Neutral(texts[i])
    ensures forall x | x in Sort(texts) :: Neutral(x)
  {
    forall x | x in Sort(texts) ensures Neutral(x) {
      assert x in multiset(Sort(texts));
      assert x in texts;
    }
  }

  lemma {:induction false} NormNeutral(v: Value)
    requires Clean(v) && Marshals(v)
    ensures Neutral(Norm(v)) && (Norm(v) == "" ==> v == Str(""))
    decreases v
  {
    if v.Arr? {
      var a := v.items;
      forall i | 0 <= i < |a| ensures Neutral(Norms(a)[i]) { NormNeutral(a[i]); }
      SortNeutral(Norms(a));
      NormArr(a);
      BracketNeutral('[', Sort(Norms(a)), ']');
    } else if v.Obj? {
      var m, ks := v.fields, SortedKeys(v.fields);
      forall i | 0 <= i < |ks| ensures Neutral(Entries(m, ks)[i]) {
        assert ks[i] in ks;
        AtomicNeutral(ks[i] + ":");
        NormNeutral(m[ks[i]]);
        NeutralConcat(ks[i] + ":", Norm(m[ks[i]]));
      }
      NormObj(m);
      BracketNeutral('{', Entries(m, ks), '}');
    } else {
      AtomText(v);
      AtomicNeutral(Norm(v));
    }
  }

  lemma NeutralIsItem(s: string)
    requires Neutral(s)
    ensures Item(s, 0)
  {
    assert s + "" == s;
    assert Item(s + "", 0) == Item("", 0);
  }

  /** An item ends at the first comma at its own depth, so it is read back uniquely. */
  lemma {:induction false} ItemUnique(a: string, ra: string, b: string, rb: string, d: nat)
    requires Item(a, d) && Item(b, d)
    requires ra == "" || ra[0] == ','
    requires rb == "" || rb[0] == ','
    requires a + ra == b + rb
    ensures a == b && ra == rb
    decreases |a|
  {
    if a == [] || b == [] {
      assert a == [] ==> a + ra == ra;
      assert b == [] ==> b + rb == rb;
    } else {
      assert (a + ra)[0] == a[0] && (b + rb)[0] == b[0];
      assert (a + ra)[1..] == a[1..] + ra && (b + rb)[1..] == b[1..] + rb;
      var d' := if a[0] == '[' || a[0] == '{' then d + 1 else if a[0] == ']' || a[0] == '}' then d - 1 else d;
      ItemUnique(a[1..], ra, b[1..], rb, d');
    }
  }

  /** Lists of items are read back from their comma-joined text, but for the list of just the empty item. */
  lemma {:induction false} JoinUnique(a: seq<string>, b: seq<string>)
    requires forall x | x in a + b :: Item(x, 0)
    requires !(a == [""] && b == []) && !(a == [] && b == [""])
    requires Join(a, ',') == Join(b, ',')
    ensures a == b
  {
    if a != [] { assert a[0] in a + b; }
    if b != [] { assert b[0] in a + b; }
    if a != [] && b != [] {
      var ra := if |a| == 1 then "" else "," + Join(a[1..], ',');
      var rb := if |b| == 1 then "" else "," + Join(b[1..], ',');
      assert Join(a, ',') == a[0] + ra && Join(b, ',') == b[0] + rb;
      ItemUnique(a[0], ra, b[0], rb, 0);
      if |a| > 1 {
        assert ra[1..] == Join(a[1..], ',') && rb[1..] == Join(b[1..], ',');
        assert forall x | x in a[1..] + b[1..] :: x in a + b;
        JoinUnique(a[1..], b[1..]);
      }
    }
  }

  lemma UnwrapEqual(open: char, x: string, y: string, close: char)
    requires [open] + x + [close] == [open] + y + [close]
    ensures x == y
  {
    var s, t := [open] + x + [close], [open] + y + [close];
    assert s[1..|s| - 1] == x && t[1..|t| - 1] == y;
  }

  lemma CleanItems(items: seq<Value>)
    requires forall i | 0 <= i < |items| :: Clean(items[i]) && Marshals(items[i])
    ensures forall x | x in Norms(items) :: Item(x, 0)
  {
    forall i | 0 <= i < |items| ensures Item(Norms(items)[i], 0) {
      NormNeutral(items[i]);
      NeutralIsItem(Norm(items[i]));
    }
  }

  lemma CleanEntries(m: map<string, Value>, ks: seq<string>)
    requires forall k | k in ks :: k in m && Free(k) && Clean(m[k]) && Marshals(m[k])
    ensures forall x | x in Entries(m, ks) :: Item(x, 0) && x != ""
  {
    forall i | 0 <= i < |ks| ensures Item(Entries(m, ks)[i], 0) && Entries(m, ks)[i] != "" {
      var k := ks[i];
      assert k in ks;
      NormNeutral(m[k]);
      AtomicNeutral(k + ":");
      NeutralConcat(k + ":", Norm(m[k]));
      NeutralIsItem(k + ":" + Norm(m[k]));
    }
  }

  /** Two clean objects with the same entry texts have the same keys and field texts. */
  lemma EntriesUnique(m: map<string, Value>, ks: seq<string>, m': map<string, Value>, ks': seq<string>)
    requires forall k | k in ks :: k in m && Free(k) && Marshals(m[k])
    requires forall k | k in ks' :: k in m' && Free(k) && Marshals(m'[k])
    requires Entries(m, ks) == Entries(m', ks')
    ensures ks == ks'
    ensures forall k | k in ks :: Norm(m[k]) == Norm(m'[k])
  {
    assert |ks| == |Entries(m, ks)| == |ks'|;
    forall i | 0 <= i < |ks| ensures ks[i] == ks'[i] && Norm(m[ks[i]]) == Norm(m'[ks[i]]) {
      assert Free(ks[i]) && Free(ks'[i]);
      assert ':' !in ks[i] && ':' !in ks'[i];
      assert Entries(m, ks)[i] == Entries(m', ks')[i];
      assert ks[i] + [':'] + Norm(m[ks[i]]) == ks'[i] + [':'] + Norm(m'[ks'[i]]);
      CutUnique(ks[i], Norm(m[ks[i]]), ks'[i], Norm(m'[ks'[i]]), ':');
    }
  }

  lemma WordsAreNotNumbers()
    ensures !NumberText("null") && !NumberText("true") && !NumberText("false")
  {
    if Decimal("null") { DecimalChars("null"); }
    if Decimal("true") { DecimalChars("true"); }
    if Decimal("false") { DecimalChars("false"); }
  }

  lemma Opening(v: Value)
    requires Clean(v) && Marshals(v)
    ensures v.Arr? <==> Norm(v) != "" && Norm(v)[0] == '['
    ensures v.Obj? <==> Norm(v) != "" && Norm(v)[0] == '{'
  {
    if v.Arr? { NormArr(v.items); }
    else if v.Obj? { NormObj(v.fields); }
    else {
      AtomText(v);
      assert Norm(v) != "" ==> Norm(v)[0] in Norm(v);
    }
  }

  lemma SameKind(v: Value, w: Value)
    requires Clean(v) && Clean(w) && Marshals(v) && Marshals(w)
    requires Norm(v) == Norm(w)
    ensures v.Arr? == w.Arr? && v.Obj? == w.Obj?
    ensures !v.Arr? && !v.Obj? ==> v == w
  {
    Opening(v);
    Opening(w);
    WordsAreNotNumbers();
    if !v.Arr? && !v.Obj? {
      assert v.Str? == !Literal(Norm(v));
      assert w.Str? == !Literal(Norm(w));
    }
  }

  lemma NotBlank(a: seq<Value>)
    requires Clean(Arr(a)) && Marshals(Arr(a))
    ensures Sort(Norms(a)) != [""]
  {
    if |a| == 1 {
      NormNeutral(a[0]);
      assert a == [a[0]] && Norms(a) == [Norm(a[0])];
      assert Norm(a[0]) != "";
      assert Norm(a[0]) in multiset(Sort(Norms(a)));
    } else {
      assert |multiset(Sort(Norms(a)))| == |multiset(Norms(a))| == |a|;
    }
  }

  lemma SameItemTexts(a: seq<Value>, b: seq<Value>)
    requires Clean(Arr(a)) && Clean(Arr(b)) && Marshals(Arr(a)) && Marshals(Arr(b))
    requires Norm(Arr(a)) == Norm(Arr(b))
    ensures multiset(Norms(a)) == multiset(Norms(b))
  {
    var sa, sb := Sort(Norms(a)), Sort(Norms(b));
    NormArr(a);
    NormArr(b);
    UnwrapEqual('[', Join(sa, ','), Join(sb, ','), ']');
    CleanItems(a);
    CleanItems(b);
    forall x | x in sa + sb ensures Item(x, 0) {
      assert x in multiset(sa) || x in multiset(sb);
    }
    NotBlank(a);
    NotBlank(b);
    JoinUnique(sa, sb);
  }

  lemma SameEntryTexts(m: map<string, Value>, m': map<string, Value>)
    requires Clean(Obj(m)) && Clean(Obj(m')) && Marshals(Obj(m)) && Marshals(Obj(m'))
    requires Norm(Obj(m)) == Norm(Obj(m'))
    ensures Entries(m, SortedKeys(m)) == Entries(m', SortedKeys(m'))
  {
    var es, es' := Entries(m, SortedKeys(m)), Entries(m', SortedKeys(m'));
    NormObj(m);
    NormObj(m');
    UnwrapEqual('{', Join(es, ','), Join(es', ','), '}');
    CleanEntries(m, SortedKeys(m));
    CleanEntries(m', SortedKeys(m'));
    JoinUnique(es, es');
  }

  lemma SameFieldKeys(m: map<string, Value>, m': map<string, Value>)
    requires SortedKeys(m) == SortedKeys(m')
    ensures m.Keys == m'.Keys
  {
    forall k ensures k in m <==> k in m' {
      assert k in m <==> k in SortedKeys(m);
    }
  }

  lemma SameFieldTexts(m: map<string, Value>, m': map<string, Value>)
    requires Clean(Obj(m)) && Clean(Obj(m')) && Marshals(Obj(m)) && Marshals(Obj(m'))
    requires Norm(Obj(m)) == Norm(Obj(m'))
    ensures m.Keys == m'.Keys
    ensures forall k | k in m :: Norm(m[k]) == Norm(m'[k])
  {
    SameEntryTexts(m, m');
    EntriesUnique(m, SortedKeys(m), m', SortedKeys(m'));
    SameFieldKeys(m, m');
  }

  lemma {:induction false} SameNormSameMeaning(v: Value, w: Value)
    requires Clean(v) && Clean(w) && Marshals(v) && Marshals(w)
    requires Norm(v) == Norm(w)
    ensures MeaningOf(v) == MeaningOf(w)
    decreases v
  {
    SameKind(v, w);
    if v.Arr? {
      var a, b := v.items, w.items;
      SameItemTexts(a, b);
      forall i, j | 0 <= i < |a| && 0 <= j < |b| && Norms(a)[i] == Norms(b)[j]
        ensures Meanings(a)[i] == Meanings(b)[j]
      {
        SameNormSameMeaning(a[i], b[j]);
      }
      Regroup(Norms(a), Meanings(a), Norms(b), Meanings(b));
      MeaningArr(a);
      MeaningArr(b);
    } else if v.Obj? {
      var m, m' := v.fields, w.fields;
      SameFieldTexts(m, m');
      forall k | k in m ensures MeaningOf(m[k]) == MeaningOf(m'[k]) {
        SameNormSameMeaning(m[k], m'[k]);
      }
      MeaningObj(m, m');
    }
  }

  /** Normal-form faithfulness: on clean values the printed form identifies a value
      exactly up to the order of array items at every depth. */
  lemma {:induction false} NormFaithful(v: Value, w: Value)
    requires Clean(v) && Clean(w)
    ensures Marshals(v) && Marshals(w)
    ensures Norm(v) == Norm(w) <==> MeaningOf(v) == MeaningOf(w)
  {
    CleanMarshals(v);
    CleanMarshals(w);
    if Norm(v) == Norm(w) { SameNormSameMeaning(v, w); }
    if MeaningOf(v) == MeaningOf(w) { SameMeaningSameNorm(v, w); }
  }

  // ----- Reading a normal form back from the end of a text -----

  /** Brackets opened less brackets closed. */
  function Net(s: string): int
  {
    if s == [] then 0 else Weight(s[0]) + Net(s[1..])
  }

  function Weight(c: char): int
  {
    if c == '[' || c == '{' then 1 else if c == ']' || c == '}' then -1 else 0
  }

  lemma {:induction false} NetConcat(a: string, b: string)
    ensures Net(a + b) == Net(a) + Net(b)
  {
    if a == [] {
      assert a + b == b;
    } else {
      assert (a + b)[1..] == a[1..] + b;
      NetConcat(a[1..], b);
    }
  }

  /** Nothing read from depth d closes more than d brackets, and in all it closes d. */
  lemma {:induction false} ItemNet(s: string, d: nat, n: nat)
    requires Item(s, d) && n <= |s|
    ensures d + Net(s[..n]) >= 0 && d + Net(s) == 0
  {
    if s != [] {
      ItemNet(s[1..], d + Weight(s[0]), if n == 0 then 0 else n - 1);
      if n > 0 { assert s[..n][0] == s[0] && s[..n][1..] == s[1..][..n - 1]; }
    }
  }

  lemma {:induction false} JoinNet(items: seq<string>, n: nat)
    requires forall x | x in items :: Item(x, 0)
    requires n <= |Join(items, ',')|
    ensures Net(Join(items, ',')[..n]) >= 0
  {
    if items != [] {
      var first, all := items[0], Join(items, ',');
      if n <= |first| {
        assert all[..n] == first[..n];
        ItemNet(first, 0, n);
      } else {
        var k := n - |first| - 1;
        assert all[..n] == first + ([','] + Join(items[1..], ',')[..k]);
        NetConcat(first, [','] + Join(items[1..], ',')[..k]);
        NetConcat([','], Join(items[1..], ',')[..k]);
        assert [','][1..] == [];
        ItemNet(first, 0, 0);
        JoinNet(items[1..], k);
      }
    }
  }

  /** Inside its brackets a list of items is never back at depth 0. */
  lemma InnerNet(open: char, items: seq<string>, close: char, n: nat)
    requires Weight(open) == 1 && forall x | x in items :: Item(x, 0)
    requires 0 < n < |[open] + Join(items, ',') + [close]|
    ensures Net(([open] + Join(items, ',') + [close])[..n]) > 0
  {
    var inner := Join(items, ',');
    assert ([open] + inner + [close])[..n] == [open] + inner[..n - 1];
    NetConcat([open], inner[..n - 1]);
    assert [open][1..] == [];
    JoinNet(items, n - 1);
  }

  lemma NestedNet(v: Value, n: nat)
    requires Clean(v) && Marshals(v) && (v.Arr? || v.Obj?) && 0 < n < |Norm(v)|
    ensures Net(Norm(v)[..n]) > 0
  {
    if v.Arr? {
      var texts := Sort(Norms(v.items));
      NormArr(v.items);
      CleanItems(v.items);
      forall x | x in texts ensures Item(x, 0) { assert x in multiset(texts); }
      InnerNet('[', texts, ']', n);
    } else {
      var ks := SortedKeys(v.fields);
      NormObj(v.fields);
      CleanEntries(v.fields, ks);
      InnerNet('{', Entries(v.fields, ks), '}', n);
    }
  }

  lemma NormNet(v: Value)
    requires Clean(v) && Marshals(v)
    ensures Net(Norm(v)) == 0
  {
    NormNeutral(v);
    NeutralIsItem(Norm(v));
    ItemNet(Norm(v), 0, 0);
  }

  /** Not a string with a colon of its own. */
  predicate Seamless(v: Value) { v.Str? ==> ':' !in v.s }

  /** No clean form but that of a string with a colon is a colon and another clean form behind some text. */
  lemma NoColonEnd(v: Value, front: string, w: Value)
    requires Clean(v) && Marshals(v) && Seamless(v) && Clean(w) && Marshals(w)
    requires Norm(v) == front + Norm(w) && (front != "" ==> front[|front| - 1] == ':')
    ensures front == ""
  {
    var s := Norm(v);
    assert s[..|front|] == front;
    if front != "" {
      assert s[|front| - 1] == ':' && ':' in s;
      if v.Arr? || v.Obj? {
        NormNet(v);
        NormNet(w);
        NetConcat(front, Norm(w));
        if |front| < |s| { NestedNet(v, |front|); } else { ClosesLast(v); }
      } else {
        AtomText(v);
      }
    }
  }

  lemma ClosesLast(v: Value)
    requires Marshals(v) && (v.Arr? || v.Obj?)
    ensures Norm(v) != "" && Norm(v)[|Norm(v)| - 1] != ':'
  {
    if v.Arr? { NormArr(v.items); } else { NormObj(v.fields); }
  }

  lemma LongerEnd(a: string, s: string, b: string, t: string)
    requires a + s == b + t && |s| >= |t|
    ensures s == s[..|s| - |t|] + t && b == a + s[..|s| - |t|]
  {
    var n := |s| - |t|;
    assert (a + s)[|b|..] == s[n..] && (b + t)[|b|..] == t;
    assert (a + s)[..|b|] == a + s[..n] && (b + t)[..|b|] == b;
  }

  /** Behind any text and a colon, a seamless clean value's form is read back uniquely from the end. */
  lemma NormSuffix(a: string, v: Value, b: string, w: Value)
    requires Clean(v) && Marshals(v) && Seamless(v) && Clean(w) && Marshals(w) && Seamless(w)
    requires a + ":" + Norm(v) == b + ":" + Norm(w)
    ensures a == b && Norm(v) == Norm(w)
  {
    if |Norm(v)| >= |Norm(w)| { LongerSuffix(a, v, b, w); } else { LongerSuffix(b, w, a, v); }
  }

  lemma LongerSuffix(a: string, v: Value, b: string, w: Value)
    requires Clean(v) && Marshals(v) && Seamless(v) && Clean(w) && Marshals(w)
    requires a + ":" + Norm(v) == b + ":" + Norm(w) && |Norm(v)| >= |Norm(w)|
    ensures a == b && Norm(v) == Norm(w)
  {
    var front := Norm(v)[..|Norm(v)| - |Norm(w)|];
    LongerEnd(a + ":", Norm(v), b + ":", Norm(w));
    assert front != "" ==> front[|front| - 1] == (b + ":")[|b|];
    NoColonEnd(v, front, w);
    assert a == (a + ":")[..|a|] && b == (b + ":")[..|b|];
  }

  /** Behind a longer text than q, w reads like v behind q. */
  ghost predicate Confuses(q: string, v: Value, q': string, w: Value)
    requires Marshals(v)
  {
    Clean(w) && Marshals(w) && |q| < |q'| && q + ":" + Norm(v) == q' + ":" + Norm(w)
  }

  /** Every text without delimiters but the colon is the form of some clean value. */
  lemma Spelling(s: string) returns (v: Value)
    requires Atomic(s)
    ensures Clean(v) && Marshals(v) && Norm(v) == s
  {
    v := if s == "null" then Null else if s == "true" then Bool(true) else if s == "false" then Bool(false)
         else if NumberText(s) then Num(s) else Str(s);
  }

  /** Exactly the strings with a colon can be read as part of the text before them. */
  lemma SeamlessExactly(v: Value)
    requires Clean(v) && Marshals(v)
    ensures Seamless(v) <==> !exists q, q', w :: Confuses(q, v, q', w)
  {
    if Seamless(v) {
      forall q, q', w | Confuses(q, v, q', w) ensures false { LongerSuffix(q, v, q', w); }
    } else {
      var i :| 0 <= i < |v.s| && v.s[i] == ':';
      var b, c := v.s[..i], v.s[i + 1..];
      assert v.s == b + ":" + c;
      forall x | x in c ensures x == ':' || !Delimiter(x) { assert x in v.s; }
      var w := Spelling(c);
      assert "" + ":" + Norm(v) == ":" + b + ":" + c;
      assert Confuses("", v, ":" + b, w);
    }
  }

  // ----- Where the form is not injective -----

  /** Outside the clean values the form is not injective: strings are not quoted, so every value
      shares its form with the string that spells it. */
  lemma UnquotedClash(v: Value)
    requires Marshals(v) && !v.Str?
    ensures Norm(Str(Norm(v))) == Norm(v) && MeaningOf(Str(Norm(v))) != MeaningOf(v)
  {
  }

  lemma SortedArr(items: seq<Value>)
    requires Marshals(Arr(items)) && Sorted(Norms(items))
    ensures Norm(Arr(items)) == "[" + Join(Norms(items), ',') + "]"
  {
    NormArr(items);
    SortedUnique(Sort(Norms(items)), Norms(items));
  }

  lemma BagSizes(a: seq<Value>, b: seq<Value>)
    requires |a| != |b|
    ensures MeaningOf(Arr(a)) != MeaningOf(Arr(b))
  {
    MeaningArr(a);
    MeaningArr(b);
    assert |multiset(Meanings(a))| == |a| && |multiset(Meanings(b))| == |b|;
  }

  lemma TextsOf(items: seq<Value>, texts: seq<string>)
    requires |items| == |texts| && forall i | 0 <= i < |items| :: items[i] == Str(texts[i])
    ensures Marshals(Arr(items)) && Norms(items) == texts
  {
  }

  /** And a comma inside a string reads as one between two. */
  lemma CommaClash(a: string, b: string)
    requires StrLe(a, b)
    ensures Norm(Arr([Str(a + "," + b)])) == Norm(Arr([Str(a), Str(b)]))
    ensures MeaningOf(Arr([Str(a + "," + b)])) != MeaningOf(Arr([Str(a), Str(b)]))
  {
    BagSizes([Str(a + "," + b)], [Str(a), Str(b)]);
    ArrText([Str(a + "," + b)], [a + "," + b]);
    assert [a, b][1..] == [b];
    ArrText([Str(a), Str(b)], [a, b]);
  }

  lemma ArrText(items: seq<Value>, texts: seq<string>)
    requires |items| == |texts| && (forall i | 0 <= i < |items| :: items[i] == Str(texts[i])) && Sorted(texts)
    ensures Marshals(Arr(items)) && Norm(Arr(items)) == "[" + Join(texts, ',') + "]"
  {
    TextsOf(items, texts);
    SortedArr(items);
  }

  /** The array of just the empty string prints like the empty array. */
  lemma BlankClash()
    ensures Norm(Arr([Str("")])) == Norm(Arr([])) && MeaningOf(Arr([Str("")])) != MeaningOf(Arr([]))
  {
    BagSizes([Str("")], []);
    ArrText([Str("")], [""]);
    ArrText([], []);
  }

  lemma SoleField(k: string, s: string)
    ensures Norm(Obj(map[k := Str(s)])) == "{" + (k + ":" + s) + "}"
  {
    var m := map[k := Str(s)];
    var ks := SortedKeys(m);
    assert m.Keys == {k} && multiset(ks) == multiset{k};
    assert |ks| == |multiset(ks)| == 1 && ks[0] in multiset(ks);
    assert ks == [k];
    NormObj(m);
    assert Entries(m, ks) == [k + ":" + s];
  }

  /** A colon inside a key reads as the one behind it. */
  lemma ColonClash(a: string, b: string, c: string)
    ensures Norm(Obj(map[a + ":" + b := Str(c)])) == Norm(Obj(map[a := Str(b + ":" + c)]))
    ensures MeaningOf(Obj(map[a + ":" + b := Str(c)])) != MeaningOf(Obj(map[a := Str(b + ":" + c)]))
  {
    assert (a + ":" + b) + ":" + c == a + ":" + (b + ":" + c);
    SameSoleText(a + ":" + b, c, a, b + ":" + c);
    assert |a + ":" + b| != |a|;
    SoleFieldsDiffer(a + ":" + b, Str(c), a, Str(b + ":" + c));
  }

  lemma SameSoleText(k: string, s: string, k': string, s': string)
    requires k + ":" + s == k' + ":" + s'
    ensures Norm(Obj(map[k := Str(s)])) == Norm(Obj(map[k' := Str(s')]))
  {
    SoleField(k, s);
    SoleField(k', s');
  }

  lemma SoleFieldsDiffer(k: string, v: Value, k': string, v': Value)
    requires k != k'
    ensures MeaningOf(Obj(map[k := v])) != MeaningOf(Obj(map[k' := v']))
  {
    MeaningObj(map[k := v], map[k' := v']);
    assert k in map[k := v].Keys && k !in map[k' := v'].Keys;
  }

  /** Brackets inside strings read as those of an array: l and r as an opening and a closing part. */
  lemma BracketClash(l: string, r: string, a: string, b: string)
    requires StrLe(a, b) && StrLe(l, r) && l + "," + r == "[" + (a + "," + b) + "]"
    ensures Norm(Arr([Str(l), Str(r)])) == Norm(Arr([Arr([Str(a), Str(b)])]))
    ensures MeaningOf(Arr([Str(l), Str(r)])) != MeaningOf(Arr([Arr([Str(a), Str(b)])]))
  {
    BagSizes([Str(l), Str(r)], [Arr([Str(a), Str(b)])]);
    PairText(l, r);
    NestedPair(a, b);
  }

  lemma NestedPair(a: string, b: string)
    requires StrLe(a, b)
    ensures Norm(Arr([Arr([Str(a), Str(b)])])) == "[" + ("[" + (a + "," + b) + "]") + "]"
  {
    PairText(a, b);
    SoleItem(Arr([Str(a), Str(b)]));
  }

  lemma PairText(a: string, b: string)
    requires StrLe(a, b)
    ensures Norm(Arr([Str(a), Str(b)])) == "[" + (a + "," + b) + "]"
  {
    assert [a, b][1..] == [b];
    ArrText([Str(a), Str(b)], [a, b]);
  }

  lemma SoleItem(v: Value)
    requires Marshals(v)
    ensures Norm(Arr([v])) == "[" + Norm(v) + "]"
  {
    assert Norms([v]) == [Norm(v)];
    SortedArr([v]);
  }
}
