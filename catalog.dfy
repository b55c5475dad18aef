/** The catalogue queries and the product update as functions on values:
    lookup by id, the offset/limit window of a listing, removal of an id from
    the row order, and the column assignments of an update. */
module Catalog {
  import opened Schema

  /** Lookup by primary key: the stored product when there is one. */
  function Lookup(ps: map<int, Product>, id: int): (r: Option<Product>)
    ensures r.Some? <==> id in ps
    ensures r.Some? ==> r.value == ps[id]
  {
    if id in ps then Some(ps[id]) else None
  }

  function Min(a: int, b: int): int {
    if a <= b then a else b
  }

  /** The rows left after skipping `skip` of them, cut to at most `limit`. */
  function Window<T>(s: seq<T>, skip: nat, limit: nat): (r: seq<T>)
    ensures |r| == Min(limit, if skip <= |s| then |s| - skip else 0)
    ensures forall i :: 0 <= i < |r| ==> r[i] == s[skip + i]
  {
    if |s| <= skip then [] else s[skip..Min(|s|, skip + limit)]
  }

  /** Two consecutive pages are exactly one page of their combined size:
      paging through a listing neither skips nor repeats a row. */
  lemma WindowsAdjoin<T>(s: seq<T>, skip: nat, a: nat, b: nat)
    ensures Window(s, skip, a) + Window(s, skip + a, b) == Window(s, skip, a + b)
  {
  }

  ghost predicate Increasing(s: seq<int>) {
    forall i, j :: 0 <= i < j < |s| ==> s[i] < s[j]
  }

  /** `s` with every occurrence of `x` removed, the rest kept in order. */
  function Without(s: seq<int>, x: int): (r: seq<int>)
    ensures forall y :: y in r <==> y in s && y != x
    ensures Increasing(s) ==> Increasing(r)
  {
    if s == [] then []
    else
      var rest := Without(s[1..], x);
      assert Increasing(s) ==> forall y :: y in rest ==> s[0] < y by {
        if Increasing(s) {
          forall y | y in rest ensures s[0] < y {
            var m :| 0 <= m < |s[1..]| && s[1..][m] == y;
            assert s[m + 1] == y;
          }
        }
      }
      assert Increasing(s) ==> Increasing(s[1..]) by {
        if Increasing(s) {
          forall i, j | 0 <= i < j < |s[1..]| ensures s[1..][i] < s[1..][j] {
            assert s[1..][i] == s[i + 1] && s[1..][j] == s[j + 1];
          }
        }
      }
      assert Increasing(s) && Increasing(rest) ==> Increasing([s[0]] + rest) by {
        if Increasing(s) && Increasing(rest) {
          forall i, j | 0 <= i < j < |[s[0]] + rest| ensures ([s[0]] + rest)[i] < ([s[0]] + rest)[j] {
            assert ([s[0]] + rest)[j] == rest[j - 1] && rest[j - 1] in rest;
            if i > 0 {
              assert ([s[0]] + rest)[i] == rest[i - 1];
            }
          }
        }
      }
      if s[0] == x then rest else [s[0]] + rest
  }

  /** Removing an id that is not there leaves the order as it was. */
  lemma {:induction false} WithoutAbsent(s: seq<int>, x: int)
    requires x !in s
    ensures Without(s, x) == s
  {
    if s != [] {
      WithoutAbsent(s[1..], x);
      assert [s[0]] + s[1..] == s;
    }
  }

  function KeyOf(f: Field): Key {
    match f
    case Name(_) => NameKey
    case Description(_) => DescriptionKey
    case Price(_) => PriceKey
    case Stock(_) => StockKey
  }

  /** The current value of column `k` of `p`, as a field. */
  function Read(p: Product, k: Key): Field {
    match k
    case NameKey => Name(p.name)
    case DescriptionKey => Description(p.description)
    case PriceKey => Price(p.price)
    case StockKey => Stock(p.stock)
  }

  /** One attribute assignment. */
  function Assign(p: Product, f: Field): (r: Product)
    ensures r.id == p.id
    ensures Read(r, KeyOf(f)) == f
    ensures forall k :: k != KeyOf(f) ==> Read(r, k) == Read(p, k)
  {
    match f
    case Name(v) => p.(name := v)
    case Description(v) => p.(description := v)
    case Price(v) => p.(price := v)
    case Stock(v) => p.(stock := v)
  }

  /** No field of `fs` assigns column `k`. */
  ghost predicate Unset(fs: seq<Field>, k: Key) {
    forall i :: 0 <= i < |fs| ==> KeyOf(fs[i]) != k
  }

  /** No later field of `fs` assigns the column that `fs[i]` assigns. */
  ghost predicate LastFor(fs: seq<Field>, i: nat)
    requires i < |fs|
  {
    forall j :: i < j < |fs| ==> KeyOf(fs[j]) != KeyOf(fs[i])
  }

  /** The product after assigning the supplied fields one after another: the
      id is never assigned, and the last field supplied is the one the row
      ends up holding for its column. */
  function ApplyFields(p: Product, fs: seq<Field>): (r: Product)
    ensures r.id == p.id
    ensures fs != [] ==> Read(r, KeyOf(fs[|fs| - 1])) == fs[|fs| - 1]
    decreases |fs|
  {
    if fs == [] then p else Assign(ApplyFields(p, fs[..|fs| - 1]), fs[|fs| - 1])
  }

  /** An update overwrites only what it supplies: columns nobody supplied
      keep their value, a supplied column takes its last supplied value, and
      the id never changes. */
  lemma {:induction false} ApplyFieldsOverwritesOnlySupplied(p: Product, fs: seq<Field>)
    ensures ApplyFields(p, fs).id == p.id
    ensures forall k :: Unset(fs, k) ==> Read(ApplyFields(p, fs), k) == Read(p, k)
    ensures forall i :: 0 <= i < |fs| && LastFor(fs, i) ==> Read(ApplyFields(p, fs), KeyOf(fs[i])) == fs[i]
    decreases |fs|
  {
    if fs != [] {
      var front, f := fs[..|fs| - 1], fs[|fs| - 1];
      ApplyFieldsOverwritesOnlySupplied(p, front);
      var q := ApplyFields(p, front);
      assert ApplyFields(p, fs) == Assign(q, f);
      forall k | Unset(fs, k) ensures Read(Assign(q, f), k) == Read(p, k) {
        assert Unset(front, k) && KeyOf(f) != k by {
          forall i | 0 <= i < |front| ensures KeyOf(front[i]) != k {
            assert front[i] == fs[i];
          }
          assert KeyOf(fs[|fs| - 1]) != k;
        }
      }
      forall i | 0 <= i < |fs| && LastFor(fs, i) ensures Read(Assign(q, f), KeyOf(fs[i])) == fs[i] {
        if i < |front| {
          assert KeyOf(f) != KeyOf(fs[i]);
          assert front[i] == fs[i];
          assert LastFor(front, i) by {
            forall j | i < j < |front| ensures KeyOf(front[j]) != KeyOf(front[i]) {
              assert front[j] == fs[j];
            }
          }
        }
      }
    }
  }
}
