/** `Array.prototype.sort` over a set of object keys, with a comparator that
    puts the keys of a set `late` after all other keys and compares the key
    strings within each group. The engine uses it with `late` the keys
    holding a function (index.js:112-122), and with `late` empty for a plain
    ascending listing of keys. */
module KeyOrder {
  import opened Strings

  /** `a` sorts strictly before `b`: a key outside `late` before one in
      it, then `a < b`. With `late` empty this is plain `<` on strings. */
  predicate Before(late: set<string>, a: string, b: string) {
    (a !in late && b in late) || ((a in late) == (b in late) && LexLess(a, b))
  }

  lemma BeforeIsStrictTotal(late: set<string>)
    ensures forall a :: !Before(late, a, a)
    ensures forall a, b :: a != b ==> Before(late, a, b) || Before(late, b, a)
    ensures forall a, b, c :: Before(late, a, b) && Before(late, b, c) ==> Before(late, a, c)
  {
    forall a ensures !Before(late, a, a) { LexIrreflexive(a); }
    forall a, b | a != b ensures Before(late, a, b) || Before(late, b, a) { LexTotal(a, b); }
    forall a, b, c | Before(late, a, b) && Before(late, b, c) ensures Before(late, a, c) {
      if (a in late) == (b in late) == (c in late) { LexTransitive(a, b, c); }
    }
  }

  /** `x` is the first key of `ks` under the comparator. */
  predicate IsFirst(late: set<string>, ks: set<string>, x: string) {
    x in ks && forall y | y in ks :: !Before(late, y, x)
  }

  lemma {:induction false} FirstExists(late: set<string>, ks: set<string>)
    requires ks != {}
    ensures exists x :: IsFirst(late, ks, x)
    decreases |ks|
  {
    BeforeIsStrictTotal(late);
    var y :| y in ks;
    if ks != {y} {
      FirstExists(late, ks - {y});
      var x :| IsFirst(late, ks - {y}, x);
      if Before(late, y, x) {
        assert IsFirst(late, ks, y);
      } else {
        assert IsFirst(late, ks, x);
      }
    } else {
      assert IsFirst(late, ks, y);
    }
  }

  /** The keys of `ks` in comparator order (`SortOrdered`), each once
      (`SortDistinct`). */
  function Sort(ks: set<string>, late: set<string>): (r: seq<string>)
    ensures |r| == |ks|
    ensures forall i | 0 <= i < |r| :: r[i] in ks
    ensures forall k | k in ks :: k in r
    decreases |ks|
  {
    if ks == {} then []
    else
      FirstUnique(late, ks);
      FirstExists(late, ks);
      var x :| IsFirst(late, ks, x);
      [x] + Sort(ks - {x}, late)
  }

  /** Every pair of the sorted keys is in comparator order. */
  lemma SortOrdered(ks: set<string>, late: set<string>)
    ensures forall i, j | 0 <= i < j < |Sort(ks, late)| ::
      Before(late, Sort(ks, late)[i], Sort(ks, late)[j])
  {
    forall i, j | 0 <= i < j < |Sort(ks, late)|
      ensures Before(late, Sort(ks, late)[i], Sort(ks, late)[j])
    {
      SortPair(ks, late, i, j);
    }
  }

  /** No key is listed twice. */
  lemma SortDistinct(ks: set<string>, late: set<string>, i: nat, j: nat)
    requires i < j < |Sort(ks, late)|
    ensures Sort(ks, late)[i] != Sort(ks, late)[j]
  {
    SortPair(ks, late, i, j);
    LexIrreflexive(Sort(ks, late)[i]);
  }

  /** One pair, by induction on the position of the earlier key. */
  lemma {:induction false} SortPair(ks: set<string>, late: set<string>, i: nat, j: nat)
    requires i < j < |Sort(ks, late)|
    ensures Before(late, Sort(ks, late)[i], Sort(ks, late)[j])
    decreases |ks|
  {
    if i == 0 {
      HeadBefore(ks, late, j);
    } else {
      var x := SortTail(ks, late);
      var rest := Sort(ks - {x}, late);
      assert Sort(ks, late)[i] == rest[i - 1] && Sort(ks, late)[j] == rest[j - 1];
      SortPair(ks - {x}, late, i - 1, j - 1);
    }
  }

  /** The first key of a listing sorts before every later one. */
  lemma HeadBefore(ks: set<string>, late: set<string>, j: nat)
    requires 0 < j < |Sort(ks, late)|
    ensures Before(late, Sort(ks, late)[0], Sort(ks, late)[j])
  {
    var x := SortHead(ks, late);
    var rest := Sort(ks - {x}, late);
    assert Sort(ks, late)[j] == rest[j - 1] && rest[j - 1] in ks - {x};
    FirstBefore(late, ks, x, rest[j - 1]);
  }

  /** A non-empty listing is its first key and the listing of the others. */
  lemma SortTail(ks: set<string>, late: set<string>) returns (x: string)
    requires ks != {}
    ensures x in ks && Sort(ks, late) == [x] + Sort(ks - {x}, late)
  {
    x := SortHead(ks, late);
  }

  /** A non-empty listing starts with the first key. */
  lemma SortHead(ks: set<string>, late: set<string>) returns (x: string)
    requires ks != {}
    ensures IsFirst(late, ks, x) && Sort(ks, late) == [x] + Sort(ks - {x}, late)
  {
    FirstUnique(late, ks);
    FirstExists(late, ks);
    x :| IsFirst(late, ks, x);
  }

  /** The first key sorts before every other key. */
  lemma FirstBefore(late: set<string>, ks: set<string>, x: string, y: string)
    requires IsFirst(late, ks, x) && y in ks && y != x
    ensures Before(late, x, y)
  {
    LexTotal(x, y);
  }

  /** At most one key is first. */
  lemma FirstUnique(late: set<string>, ks: set<string>)
    ensures forall x, y | IsFirst(late, ks, x) && IsFirst(late, ks, y) :: x == y
  {
    forall x, y | IsFirst(late, ks, x) && IsFirst(late, ks, y) ensures x == y {
      if x != y {
        FirstBefore(late, ks, x, y);
      }
    }
  }
}
