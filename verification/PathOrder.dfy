/** The order in which a `std::map` with string keys is walked. */
module PathOrder {
  import opened Bytes
  import opened NameOrder

  type Path = Bytes

  ghost predicate IsLeast(k: Path, keys: set<Path>) {
    k in keys && forall j :: j in keys && j != k ==> NameLess(k, j)
  }

  lemma {:induction false} LeastExists(keys: set<Path>)
    requires keys != {}
    ensures exists k :: IsLeast(k, keys)
    decreases keys
  {
    var x :| x in keys;
    var rest := keys - {x};
    assert forall j :: j in keys && j != x ==> j in rest;
    if rest == {} {
      assert IsLeast(x, keys);
    } else {
      LeastExists(rest);
      var y :| IsLeast(y, rest);
      NameLessTotal(x, y);
      if NameLess(y, x) {
        assert IsLeast(y, keys);
      } else {
        forall j | j in keys && j != x
          ensures NameLess(x, j)
        {
          if j != y {
            NameLessTransitive(x, y, j);
          }
        }
        assert IsLeast(x, keys);
      }
    }
  }

  lemma LeastIsUnique(k: Path, l: Path, keys: set<Path>)
    requires IsLeast(k, keys) && IsLeast(l, keys)
    ensures k == l
  {
    if k != l {
      NameLessAsymmetric(k, l);
    }
  }

  ghost function Least(keys: set<Path>): (k: Path)
    requires keys != {}
    ensures IsLeast(k, keys)
  {
    LeastExists(keys);
    var k :| IsLeast(k, keys);
    k
  }

  ghost function SortedKeys(keys: set<Path>): (r: seq<Path>)
    ensures |r| == |keys|
    decreases keys
  {
    if keys == {} then [] else [Least(keys)] + SortedKeys(keys - {Least(keys)})
  }

  lemma {:induction false} SortedKeysAre(keys: set<Path>)
    ensures forall k :: k in SortedKeys(keys) <==> k in keys
    decreases keys
  {
    if keys != {} {
      SortedKeysAre(keys - {Least(keys)});
    }
  }

  lemma {:induction false} SortedKeysOrdered(keys: set<Path>)
    ensures forall i, j :: 0 <= i < j < |SortedKeys(keys)| ==> NameLess(SortedKeys(keys)[i], SortedKeys(keys)[j])
    decreases keys
  {
    if keys != {} {
      var rest := keys - {Least(keys)};
      SortedKeysOrdered(rest);
      SortedKeysAre(rest);
      var all := SortedKeys(keys);
      forall i, j | 0 <= i < j < |all|
        ensures NameLess(all[i], all[j])
      {
        assert all[j] == SortedKeys(rest)[j - 1];
        if i > 0 {
          assert all[i] == SortedKeys(rest)[i - 1];
        } else {
          assert all[j] in rest;
        }
      }
    }
  }

  lemma SortedKeysDistinct(keys: set<Path>)
    ensures forall i, j :: 0 <= i < j < |SortedKeys(keys)| ==> SortedKeys(keys)[i] != SortedKeys(keys)[j]
  {
    SortedKeysOrdered(keys);
    var all := SortedKeys(keys);
    forall i, j | 0 <= i < j < |all|
      ensures all[i] != all[j]
    {
      NameLessAsymmetric(all[i], all[j]);
    }
  }

  /** Walking a map from its first key to its last. */
  method KeysInOrder(keys: set<Path>) returns (r: seq<Path>)
    ensures r == SortedKeys(keys)
  {
    var left := keys;
    r := [];
    while left != {}
      invariant r + SortedKeys(left) == SortedKeys(keys)
      decreases left
    {
      LeastExists(left);
      var k := FirstKey(left);
      LeastIsUnique(k, Least(left), left);
      assert r + SortedKeys(left) == (r + [k]) + SortedKeys(left - {k});
      r := r + [k];
      left := left - {k};
    }
  }

  method FirstKey(keys: set<Path>) returns (k: Path)
    requires keys != {}
    ensures IsLeast(k, keys)
  {
    LeastExists(keys);
    k :| k in keys;
    var left := keys - {k};
    while left != {}
      invariant k in keys && left <= keys && k !in left
      invariant forall j :: j in keys && j !in left && j != k ==> NameLess(k, j)
      decreases left
    {
      var j :| j in left;
      NameLessTotal(k, j);
      if NameLess(j, k) {
        StillBelow(j, k, keys - left);
        k := j;
      }
      left := left - {j};
    }
  }

  lemma StillBelow(j: Path, k: Path, above: set<Path>)
    requires NameLess(j, k) && forall x :: x in above && x != k ==> NameLess(k, x)
    ensures forall x :: x in above ==> NameLess(j, x)
  {
    forall x | x in above
      ensures NameLess(j, x)
    {
      if x != k {
        NameLessTransitive(j, k, x);
      }
    }
  }
}
