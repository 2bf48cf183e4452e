/** String machinery the encoders, cache keys and parsers share: the byte order
    behind Go's sort.Strings, and strings.Join / strings.Split on one character. */
module Text {

  datatype Option<+T> = None | Some(value: T)

  ghost predicate Increasing(s: seq<int>)
  {
    forall i, j | 0 <= i < j < |s| :: s[i] < s[j]
  }

  function Least(a: int, b: int): (r: int)
    ensures r <= a && r <= b && (r == a || r == b)
  {
    if a <= b then a else b
  }

  /** Lexicographic order on strings. */
  predicate StrLe(a: string, b: string)
  {
    if a == [] then true
    else if b == [] then false
    else if a[0] == b[0] then StrLe(a[1..], b[1..])
    else a[0] < b[0]
  }

  lemma {:induction false} StrLeTotal(a: string, b: string)
    ensures StrLe(a, b) || StrLe(b, a)
  {
    if a != [] && b != [] && a[0] == b[0] {
      StrLeTotal(a[1..], b[1..]);
    }
  }

  lemma {:induction false} StrLeAntisymmetric(a: string, b: string)
    requires StrLe(a, b) && StrLe(b, a)
    ensures a == b
  {
    if a != [] && b != [] {
      StrLeAntisymmetric(a[1..], b[1..]);
    }
  }

  lemma {:induction false} StrLeTransitive(a: string, b: string, c: string)
    requires StrLe(a, b) && StrLe(b, c)
    ensures StrLe(a, c)
  {
    if a != [] && a[0] == b[0] == c[0] {
      StrLeTransitive(a[1..], b[1..], c[1..]);
    }
  }

  /** One string is at most another exactly if it is a prefix of it, or has the lower character where the two
      first differ. */
  lemma {:induction false} StrLeExactly(a: string, b: string)
    ensures StrLe(a, b) <==> exists i :: PartAt(a, b, i)
  {
    forall i | PartAt(a, b, i) && i > 0 ensures a[0] == b[0] { assert a[..i][0] == a[0] && b[..i][0] == b[0]; }
    if a == [] || (b != [] && a[0] < b[0]) {
      assert PartAt(a, b, 0);
    } else if b != [] && a[0] == b[0] {
      StrLeExactly(a[1..], b[1..]);
      if i :| PartAt(a[1..], b[1..], i) {
        assert a[..i + 1] == [a[0]] + a[1..][..i] && b[..i + 1] == [b[0]] + b[1..][..i];
        assert PartAt(a, b, i + 1);
      }
      if i :| PartAt(a, b, i) {
        assert a[1..][..i - 1] == a[..i][1..] && b[1..][..i - 1] == b[..i][1..];
        assert PartAt(a[1..], b[1..], i - 1);
      }
    }
  }

  /** The two agree up to i, where the first ends or has the lower character. */
  ghost predicate PartAt(a: string, b: string, i: int)
  {
    0 <= i <= |a| && i <= |b| && a[..i] == b[..i] && (i == |a| || (i < |b| && a[i] < b[i]))
  }

  /** Every element is at most every later one. */
  predicate Sorted(s: seq<string>)
  {
    if s == [] then true else (forall x | x in s[1..] :: StrLe(s[0], x)) && Sorted(s[1..])
  }

  function Insert(x: string, s: seq<string>): (r: seq<string>)
    requires Sorted(s)
    ensures multiset(r) == multiset(s) + multiset{x}
    ensures Sorted(r)
  {
    if s == [] then [x]
    else
      assert s == [s[0]] + s[1..];
      if StrLe(x, s[0]) then
        assert forall y | y in s :: StrLe(x, y) by {
          forall y | y in s ensures StrLe(x, y) {
            if y != s[0] { StrLeTransitive(x, s[0], y); }
          }
        }
        [x] + s
      else
        var rest := Insert(x, s[1..]);
        assert StrLe(s[0], x) by { StrLeTotal(x, s[0]); }
        assert forall y | y in rest :: StrLe(s[0], y) by {
          forall y | y in rest ensures StrLe(s[0], y) {
            assert y in multiset(rest);
          }
        }
        [s[0]] + rest
  }

  /** sort.Strings. */
  function Sort(s: seq<string>): (r: seq<string>)
    ensures Sorted(r) && multiset(r) == multiset(s)
  {
    if s == [] then []
    else
      assert s == [s[0]] + s[1..];
      Insert(s[0], Sort(s[1..]))
  }

  lemma HeadLeast(s: seq<string>, x: string)
    requires Sorted(s) && x in s
    ensures StrLe(s[0], x)
  {
    if x == s[0] { StrLeTotal(x, x); } else { assert x in s[1..]; }
  }

  lemma SameTails(a: seq<string>, b: seq<string>)
    requires a != [] && b != [] && a[0] == b[0] && multiset(a) == multiset(b)
    ensures multiset(a[1..]) == multiset(b[1..])
  {
    assert a == [a[0]] + a[1..] && b == [b[0]] + b[1..];
    assert multiset(a[1..]) == multiset(a) - multiset{a[0]} == multiset(b[1..]);
  }

  /** There is only one way to sort a bag of strings. */
  lemma {:induction false} SortedUnique(a: seq<string>, b: seq<string>)
    requires Sorted(a) && Sorted(b) && multiset(a) == multiset(b)
    ensures a == b
  {
    if a == [] {
      assert |multiset(b)| == 0;
    } else {
      assert |multiset(a)| == |a| && |multiset(b)| == |b|;
      assert a[0] in multiset(b) && b[0] in multiset(a);
      HeadLeast(a, b[0]);
      HeadLeast(b, a[0]);
      StrLeAntisymmetric(a[0], b[0]);
      SameTails(a, b);
      SortedUnique(a[1..], b[1..]);
    }
  }

  /** strings.Join with a one-character separator. */
  function Join(items: seq<string>, sep: char): string
  {
    if items == [] then ""
    else if |items| == 1 then items[0]
    else items[0] + [sep] + Join(items[1..], sep)
  }

  /** strings.Split on a one-character separator. */
  function Split(s: string, sep: char): (parts: seq<string>)
    ensures |parts| >= 1
  {
    if s == [] then [""]
    else
      var rest := Split(s[1..], sep);
      if s[0] == sep then [""] + rest else [[s[0]] + rest[0]] + rest[1..]
  }

  lemma {:induction false} SplitFree(s: string, sep: char)
    requires sep !in s
    ensures Split(s, sep) == [s]
  {
    if s != [] {
      SplitFree(s[1..], sep);
      assert [s[0]] + s[1..] == s;
    }
  }

  lemma {:induction false} SplitAtFirst(a: string, b: string, sep: char)
    requires sep !in a
    ensures Split(a + [sep] + b, sep) == [a] + Split(b, sep)
  {
    var s := a + [sep] + b;
    if a == [] {
      assert s[1..] == b;
    } else {
      assert s[1..] == a[1..] + [sep] + b;
      SplitAtFirst(a[1..], b, sep);
      assert [s[0]] + a[1..] == a;
    }
  }

  /** Splitting undoes joining for non-empty lists of separator-free items. */
  lemma {:induction false} SplitJoin(items: seq<string>, sep: char)
    requires items != []
    requires forall x | x in items :: sep !in x
    ensures Split(Join(items, sep), sep) == items
  {
    if |items| == 1 {
      SplitFree(items[0], sep);
    } else {
      SplitAtFirst(items[0], Join(items[1..], sep), sep);
      SplitJoin(items[1..], sep);
    }
  }

  /** Joining undoes splitting, and no part holds the separator. */
  lemma {:induction false} JoinSplit(s: string, sep: char)
    ensures Join(Split(s, sep), sep) == s
    ensures forall part | part in Split(s, sep) :: sep !in part
  {
    if s != [] {
      var rest := Split(s[1..], sep);
      JoinSplit(s[1..], sep);
      if s[0] == sep {
        assert ([""] + rest)[1..] == rest;
      } else {
        var parts := [[s[0]] + rest[0]] + rest[1..];
        assert parts[1..] == rest[1..] && rest[0] in rest;
      }
    }
  }

  /** Two strings cut at the first occurrence of a separator determine both halves. */
  lemma {:induction false} CutUnique(a: string, b: string, a': string, b': string, sep: char)
    requires sep !in a && sep !in a'
    requires a + [sep] + b == a' + [sep] + b'
    ensures a == a' && b == b'
  {
    var s, s' := a + [sep] + b, a' + [sep] + b';
    if a == [] || a' == [] {
      assert s[|a|] == sep && s'[|a'|] == sep;
      assert a == [] && a' == [];
      assert s[1..] == b && s'[1..] == b';
    } else {
      assert s[0] == a[0] && s'[0] == a'[0];
      assert s[1..] == a[1..] + [sep] + b && s'[1..] == a'[1..] + [sep] + b';
      CutUnique(a[1..], b, a'[1..], b', sep);
    }
  }
}
