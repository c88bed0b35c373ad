// Address ranges, and how many ranges of a list own a given byte.
module Regions {
  datatype Region = Region(start: nat, size: nat) {
    function End(): nat { start + size }
    predicate Has(a: int) { start <= a < End() }
  }

  /** How many of the regions contain byte `a`. */
  function Owners(s: seq<Region>, a: int): nat {
    if s == [] then 0 else (if s[0].Has(a) then 1 else 0) + Owners(s[1..], a)
  }

  function Bytes(s: seq<Region>): nat {
    if s == [] then 0 else s[0].size + Bytes(s[1..])
  }

  function Remove<T>(s: seq<T>, i: nat): seq<T>
    requires i < |s|
  {
    s[..i] + s[i + 1..]
  }

  ghost predicate Disjoint(r: Region, q: Region) {
    forall a: int :: !(r.Has(a) && q.Has(a))
  }

  lemma {:induction false} OwnersAppend(s: seq<Region>, t: seq<Region>, a: int)
    ensures Owners(s + t, a) == Owners(s, a) + Owners(t, a)
    ensures Bytes(s + t) == Bytes(s) + Bytes(t)
  {
    if s == [] {
      assert s + t == t;
    } else {
      assert (s + t)[1..] == s[1..] + t;
      OwnersAppend(s[1..], t, a);
    }
  }

  lemma OwnersSingle(r: Region, a: int)
    ensures Owners([r], a) == (if r.Has(a) then 1 else 0)
    ensures Bytes([r]) == r.size
  {
    assert [r][1..] == [];
  }

  lemma {:induction false} OwnersRemove(s: seq<Region>, i: nat, a: int)
    requires i < |s|
    ensures Owners(s, a) == (if s[i].Has(a) then 1 else 0) + Owners(Remove(s, i), a)
    ensures Bytes(s) == s[i].size + Bytes(Remove(s, i))
  {
    assert s == s[..i] + ([s[i]] + s[i + 1..]);
    OwnersAppend(s[..i], [s[i]] + s[i + 1..], a);
    OwnersAppend([s[i]], s[i + 1..], a);
    OwnersAppend(s[..i], s[i + 1..], a);
    OwnersSingle(s[i], a);
  }

  lemma OwnersAt(s: seq<Region>, i: nat, a: int)
    requires i < |s| && s[i].Has(a)
    ensures Owners(s, a) >= 1
  {
    OwnersRemove(s, i, a);
  }

  lemma OwnersAtTwo(s: seq<Region>, i: nat, j: nat, a: int)
    requires i < j < |s| && s[i].Has(a) && s[j].Has(a)
    ensures Owners(s, a) >= 2
  {
    OwnersRemove(s, i, a);
    assert Remove(s, i)[j - 1] == s[j];
    OwnersAt(Remove(s, i), j - 1, a);
  }

  /** If nobody owns a byte twice, no two regions meet. */
  lemma AtMostOneOwnerMeansDisjoint(s: seq<Region>, i: nat, j: nat)
    requires i < |s| && j < |s| && i != j
    requires forall a: int :: Owners(s, a) <= 1
    ensures Disjoint(s[i], s[j])
  {
    forall a: int
      ensures !(s[i].Has(a) && s[j].Has(a))
    {
      assert Owners(s, a) <= 1;
      if s[i].Has(a) && s[j].Has(a) {
        OwnersAtTwo(s, if i < j then i else j, if i < j then j else i, a);
      }
    }
  }
}
