/**
 * AuthorizationSet: a vector of key parameters kept as a sorted set.  `std::sort` may leave tied
 * parameters in any order, so each operation is specified by a relation between its inputs and
 * its result, and the laws of the algebra hold of every pair of results up to ties.
 */
module AuthorizationSets {
  import opened Bytes
  import opened KeyParameters
  import ParamStreams

  ghost predicate Sorted(s: seq<KeyParameter>) {
    forall i, j :: 0 <= i < j < |s| ==> !KeyParamLess(s[j], s[i])
  }

  /** How many entries of `s` tie with `p`. */
  ghost function Ties(s: seq<KeyParameter>, p: KeyParameter): nat {
    if s == [] then 0 else (if Tie(s[0], p) then 1 else 0) + Ties(s[1..], p)
  }

  predicate AllInvalid(s: seq<KeyParameter>) {
    forall p :: p in s ==> p.tag == TAG_INVALID
  }

  predicate AllKnown(s: seq<KeyParameter>) {
    forall p :: p in s ==> KnownType(p)
  }

  /** How often `p` survives deduplication: once, except that INVALID survives only alone and that
      entries of a type without an enumerator are never seen as duplicates. */
  ghost function TiesAfterDeduplication(s: seq<KeyParameter>, p: KeyParameter): nat {
    if !KnownType(p) then Ties(s, p)
    else if Ties(s, p) == 0 || (p.tag == TAG_INVALID && !AllInvalid(s)) then 0
    else 1
  }

  ghost predicate IsDeduplicated(s: seq<KeyParameter>, r: seq<KeyParameter>) {
    && Sorted(r)
    && (forall x :: x in r ==> x in s)
    && forall p :: Ties(r, p) == TiesAfterDeduplication(s, p)
  }

  ghost predicate IsUnion(a: seq<KeyParameter>, b: seq<KeyParameter>, r: seq<KeyParameter>) {
    IsDeduplicated(a + b, r)
  }

  /** Some entry of `b` equals `p`. */
  predicate Covered(b: seq<KeyParameter>, p: KeyParameter) {
    exists o :: o in b && KeyParamEqual(o, p)
  }

  /** The entries of `d` that equal nothing in `b`, in order. */
  function Without(d: seq<KeyParameter>, b: seq<KeyParameter>): seq<KeyParameter> {
    if d == [] then []
    else (if Covered(b, d[0]) then [] else [d[0]]) + Without(d[1..], b)
  }

  ghost predicate IsDifference(a: seq<KeyParameter>, b: seq<KeyParameter>, r: seq<KeyParameter>) {
    exists d :: IsDeduplicated(a, d) && r == Without(d, b)
  }

  /** The two lists tie place by place; on known types this is equality place by place. */
  ghost predicate SameUpToTies(a: seq<KeyParameter>, b: seq<KeyParameter>) {
    |a| == |b| && forall i :: 0 <= i < |a| ==> Tie(a[i], b[i])
  }

  lemma TiesAreEqualities(a: seq<KeyParameter>, b: seq<KeyParameter>)
    requires SameUpToTies(a, b) && AllKnown(a)
    ensures forall i :: 0 <= i < |a| ==> KeyParamEqual(a[i], b[i])
  {
    forall i | 0 <= i < |a|
      ensures KeyParamEqual(a[i], b[i])
    {
      assert a[i] in a;
      TieIsEqual(a[i], b[i]);
    }
  }

  /** What comes back from the persistent format equals what was written, entry by entry. */
  lemma SameValuesAreEqual(a: seq<KeyParameter>, b: seq<KeyParameter>)
    requires ParamStreams.SameValues(a, b) && AllKnown(a)
    ensures forall i :: 0 <= i < |a| ==> KeyParamEqual(a[i], b[i])
  {
    forall i | 0 <= i < |a|
      ensures KeyParamEqual(a[i], b[i])
    {
      var p, q := a[i], b[i];
      assert p in a && ParamStreams.SameValue(p, q);
      assert p.f[..8] == p.f && q.f[..8] == q.f;
      BlobOrder(p.blob, q.blob);
    }
  }

  // ----- counting ties

  lemma {:induction false} TiesConcat(a: seq<KeyParameter>, b: seq<KeyParameter>, p: KeyParameter)
    ensures Ties(a + b, p) == Ties(a, p) + Ties(b, p)
  {
    if a == [] {
      assert a + b == b;
    } else {
      TiesConcat(a[1..], b, p);
      assert (a + b)[1..] == a[1..] + b;
    }
  }

  lemma {:induction false} TiesAtLeastOne(s: seq<KeyParameter>, p: KeyParameter)
    ensures Ties(s, p) > 0 <==> exists i :: 0 <= i < |s| && Tie(s[i], p)
  {
    if s != [] {
      TiesAtLeastOne(s[1..], p);
      if i :| 0 <= i < |s| && Tie(s[i], p) {
        assert i == 0 || s[1..][i - 1] == s[i];
      }
    }
  }

  lemma TiesErase(s: seq<KeyParameter>, i: nat, p: KeyParameter)
    requires i < |s|
    ensures Ties(s, p) == Ties(s[..i] + s[i + 1..], p) + if Tie(s[i], p) then 1 else 0
  {
    hide KeyParamLess;
    assert s == s[..i] + [s[i]] + s[i + 1..];
    TiesConcat(s[..i], s[i + 1..], p);
    TiesConcat(s[..i] + [s[i]], s[i + 1..], p);
    TiesConcat(s[..i], [s[i]], p);
  }

  lemma PermutationErase<T>(a: seq<T>, b: seq<T>) returns (i: nat)
    requires a != [] && multiset(a) == multiset(b)
    ensures i < |b| && b[i] == a[0]
    ensures multiset(a[1..]) == multiset(b[..i] + b[i + 1..])
  {
    assert a[0] in multiset(b);
    i :| 0 <= i < |b| && b[i] == a[0];
    RemoveAt(a, 0);
    RemoveAt(b, i);
    Cancel(multiset(a[1..]), multiset(b[..i] + b[i + 1..]), a[0]);
    assert a[..0] + a[1..] == a[1..];
  }

  lemma RemoveAt<T>(s: seq<T>, i: nat)
    requires i < |s|
    ensures multiset(s) == multiset(s[..i] + s[i + 1..]) + multiset{s[i]}
  {
    assert s == s[..i] + [s[i]] + s[i + 1..];
  }

  lemma Cancel<T>(a: multiset<T>, b: multiset<T>, x: T)
    requires a + multiset{x} == b + multiset{x}
    ensures a == b
  {
    assert a == (a + multiset{x}) - multiset{x};
    assert b == (b + multiset{x}) - multiset{x};
  }

  lemma {:induction false} TiesOfPermutation(a: seq<KeyParameter>, b: seq<KeyParameter>, p: KeyParameter)
    requires multiset(a) == multiset(b)
    ensures Ties(a, p) == Ties(b, p)
  {
    hide KeyParamLess;
    if a == [] {
      assert |multiset(b)| == 0;
    } else {
      var i := PermutationErase(a, b);
      TiesOfPermutation(a[1..], b[..i] + b[i + 1..], p);
      TiesErase(b, i, p);
    }
  }

  lemma {:induction false} TiesRespectsTie(s: seq<KeyParameter>, p: KeyParameter, q: KeyParameter)
    requires Tie(p, q)
    ensures Ties(s, p) == Ties(s, q)
  {
    if s != [] {
      TiesRespectsTie(s[1..], p, q);
      LessRespectsTie(p, q, s[0]);
    }
  }

  // ----- Deduplicate

  /** What the loop has kept once it has looked at the first `n` entries. */
  function Collapse(s: seq<KeyParameter>, n: nat): seq<KeyParameter>
    requires n < |s|
  {
    if n == 0 then [] else
      var kept := if s[n - 1].tag == TAG_INVALID || KeyParamEqual(s[n - 1], s[n]) then [] else [s[n - 1]];
      Collapse(s, n - 1) + kept
  }

  lemma {:induction false} CollapseIsSublist(s: seq<KeyParameter>, n: nat)
    requires n < |s| && Sorted(s)
    ensures forall x :: x in Collapse(s, n) ==> x in s[..n]
    ensures Sorted(Collapse(s, n))
  {
    hide KeyParamLess, KeyParamEqual;
    if n > 0 {
      CollapseIsSublist(s, n - 1);
      assert s[..n] == s[..n - 1] + [s[n - 1]];
      NoneAbove(s, Collapse(s, n - 1), n - 1);
    }
  }

  lemma NoneAbove(s: seq<KeyParameter>, part: seq<KeyParameter>, n: nat)
    requires n < |s| && Sorted(s)
    requires forall x :: x in part ==> x in s[..n]
    ensures forall i :: 0 <= i < |part| ==> !KeyParamLess(s[n], part[i])
  {
    hide KeyParamLess;
    forall i | 0 <= i < |part|
      ensures !KeyParamLess(s[n], part[i])
    {
      assert part[i] in s[..n];
      var j :| 0 <= j < n && s[..n][j] == part[i];
      assert s[j] == part[i];
    }
  }

  lemma {:induction false} CollapseTies(s: seq<KeyParameter>, n: nat, p: KeyParameter)
    requires n < |s| && Sorted(s)
    ensures Ties(Collapse(s, n), p) ==
      if !KnownType(p) then Ties(s[..n], p)
      else if p.tag == TAG_INVALID || Tie(s[n], p) || Ties(s[..n], p) == 0 then 0
      else 1
  {
    hide KeyParamLess, KeyParamEqual;
    if n > 0 {
      var x, y := s[n - 1], s[n];
      CollapseTies(s, n - 1, p);
      assert s[..n] == s[..n - 1] + [x];
      TiesConcat(s[..n - 1], [x], p);
      if x.tag == TAG_INVALID || KeyParamEqual(x, y) {
        assert Collapse(s, n) == Collapse(s, n - 1);
      } else {
        TiesConcat(Collapse(s, n - 1), [x], p);
      }
      TieIsEqual(x, y);
      TieTags(x, p);
      if Tie(x, p) {
        LessRespectsTie(x, p, y);
      } else if Tie(y, p) {
        NoTieBelow(s, n, p);
      }
    }
  }

  /** In a sorted list the entries tied with one parameter are consecutive. */
  lemma NoTieBelow(s: seq<KeyParameter>, n: nat, p: KeyParameter)
    requires 0 < n < |s| && Sorted(s)
    requires Tie(s[n], p) && !Tie(s[n - 1], p)
    ensures Ties(s[..n - 1], p) == 0
  {
    TiesAtLeastOne(s[..n - 1], p);
    forall i | 0 <= i < n - 1
      ensures !Tie(s[i], p)
    {
      if Tie(s[i], p) {
        LessRespectsTie(s[i], p, s[n - 1]);
        LessRespectsTie(s[n], p, s[n - 1]);
      }
    }
  }

  lemma SortedSnoc(s: seq<KeyParameter>, x: KeyParameter)
    requires Sorted(s) && forall i :: 0 <= i < |s| ==> !KeyParamLess(x, s[i])
    ensures Sorted(s + [x])
  {
    hide KeyParamLess;
  }

  lemma CollapseDeduplicates(s: seq<KeyParameter>, r: seq<KeyParameter>)
    requires s != [] && Sorted(s)
    requires r == Collapse(s, |s| - 1) + [s[|s| - 1]]
    ensures IsDeduplicated(s, r)
  {
    hide KeyParamLess, KeyParamEqual, Ties, TiesAfterDeduplication;
    var n := |s| - 1;
    CollapseIsSublist(s, n);
    NoneAbove(s, Collapse(s, n), n);
    SortedSnoc(Collapse(s, n), s[n]);
    forall p
      ensures Ties(r, p) == TiesAfterDeduplication(s, p)
    {
      CollapseLast(s, r, p);
    }
  }

  lemma CollapseLast(s: seq<KeyParameter>, r: seq<KeyParameter>, p: KeyParameter)
    requires s != [] && Sorted(s)
    requires r == Collapse(s, |s| - 1) + [s[|s| - 1]]
    ensures Ties(r, p) == TiesAfterDeduplication(s, p)
  {
    hide KeyParamLess, KeyParamEqual;
    var n := |s| - 1;
    assert s == s[..n] + [s[n]];
    CollapseTies(s, n, p);
    TiesConcat(Collapse(s, n), [s[n]], p);
    TiesConcat(s[..n], [s[n]], p);
    TieTags(s[n], p);
    if p.tag == TAG_INVALID {
      InvalidComesFirst(s);
    }
  }

  /** INVALID is the least tag, so a sorted list that ends in INVALID holds nothing else. */
  lemma InvalidComesFirst(s: seq<KeyParameter>)
    requires s != [] && Sorted(s)
    ensures s[|s| - 1].tag == TAG_INVALID <==> AllInvalid(s)
    ensures AllInvalid(s) ==> Tie(s[|s| - 1], DEFAULT_PARAMETER)
  {
    if s[|s| - 1].tag == TAG_INVALID {
      forall p | p in s
        ensures p.tag == TAG_INVALID
      {
        var i :| 0 <= i < |s| && s[i] == p;
      }
    } else {
      assert s[|s| - 1] in s;
    }
  }

  lemma DeduplicatedOfPermutation(s: seq<KeyParameter>, t: seq<KeyParameter>, r: seq<KeyParameter>)
    requires multiset(s) == multiset(t) && IsDeduplicated(s, r)
    ensures IsDeduplicated(t, r)
  {
    assert forall p :: p in s <==> p in multiset(s);
    assert forall p :: p in t <==> p in multiset(t);
    forall p
      ensures Ties(r, p) == TiesAfterDeduplication(t, p)
    {
      TiesOfPermutation(s, t, p);
    }
  }

  lemma TiesTwice(s: seq<KeyParameter>, i: nat, j: nat)
    requires i < j < |s| && Tie(s[i], s[j])
    ensures Ties(s, s[j]) >= 2
  {
    hide KeyParamLess;
    TiesErase(s, j, s[j]);
    var rest := s[..j] + s[j + 1..];
    assert rest[i] == s[i];
    TiesAtLeastOne(rest, s[j]);
    TieTags(s[j], s[j]);
  }

  /** A deduplicated list without unknown types is strictly increasing. */
  lemma {:induction false} DeduplicatedIsStrict(s: seq<KeyParameter>, r: seq<KeyParameter>, i: nat, j: nat)
    requires IsDeduplicated(s, r) && AllKnown(s)
    requires i < j < |r|
    ensures KeyParamLess(r[i], r[j])
  {
    assert Ties(r, r[j]) == TiesAfterDeduplication(s, r[j]);
    assert r[j] in s;
    if Tie(r[i], r[j]) {
      TiesTwice(r, i, j);
      assert false;
    }
  }

  /** The classes present afterwards are the classes present before, INVALID only if alone. */
  lemma DeduplicatedClasses(s: seq<KeyParameter>, r: seq<KeyParameter>, p: KeyParameter)
    requires IsDeduplicated(s, r) && KnownType(p)
    ensures Covered(r, p) <==> Covered(s, p) && (p.tag != TAG_INVALID || AllInvalid(s))
  {
    CoveredIsTied(r, p);
    CoveredIsTied(s, p);
    assert Ties(r, p) == TiesAfterDeduplication(s, p);
  }

  /** Every value other than INVALID is kept exactly once: entries with the same tag and different bytes
      in the field of their type both stay. */
  lemma DeduplicatedKeepsValues(s: seq<KeyParameter>, r: seq<KeyParameter>, p: KeyParameter) returns (i: nat)
    requires IsDeduplicated(s, r) && p in s && 1 <= p.tag / 0x1000_0000 <= 10
    ensures i < |r| && SameField(r[i], p) && forall j :: 0 <= j < |r| && SameField(r[j], p) ==> j == i
  {
    hide KeyParamLess, KeyParamEqual, Ties, SameField;
    assert SameField(p, p) by { FieldIsItself(p); }
    EqualExactly(p, p);
    assert KnownType(p) && p.tag != TAG_INVALID;
    DeduplicatedClasses(s, r, p);
    assert Covered(s, p);
    var o :| o in r && KeyParamEqual(o, p);
    i :| 0 <= i < |r| && r[i] == o;
    EqualExactly(o, p);
    forall j | 0 <= j < |r| && SameField(r[j], p)
      ensures j == i
    {
      OnePlace(s, r, p, i, j);
    }
  }

  lemma FieldIsItself(p: KeyParameter)
    requires p.tag / 0x1000_0000 <= 10
    ensures SameField(p, p)
  {
  }

  lemma OnePlace(s: seq<KeyParameter>, r: seq<KeyParameter>, p: KeyParameter, i: nat, j: nat)
    requires IsDeduplicated(s, r) && KnownType(p)
    requires i < |r| && j < |r| && SameField(r[i], p) && SameField(r[j], p)
    ensures i == j
  {
    hide KeyParamLess, KeyParamEqual, Ties, SameField;
    EqualExactly(r[i], p);
    EqualExactly(r[j], p);
    assert r[i].tag == p.tag == r[j].tag by { FieldTags(r[i], p); FieldTags(r[j], p); }
    TieIsEqual(r[i], p);
    TieIsEqual(r[j], p);
    assert Tie(r[i], r[j]) && Tie(r[j], r[i]) by { TieTransitive(r[i], p, r[j]); }
    assert Ties(r, r[j]) == TiesAfterDeduplication(s, r[j]) && Ties(r, r[i]) == TiesAfterDeduplication(s, r[i]);
    if i < j {
      TiesTwice(r, i, j);
    } else if j < i {
      TiesTwice(r, j, i);
    }
  }

  lemma FieldTags(p: KeyParameter, q: KeyParameter)
    requires SameField(p, q)
    ensures p.tag == q.tag
  {
  }

  /** An entry other than INVALID is subtracted exactly if its field occurs, byte for byte, under its
      tag in the other set. */
  lemma SubtractedExactly(a: seq<KeyParameter>, b: seq<KeyParameter>, r: seq<KeyParameter>, p: KeyParameter)
    requires IsDifference(a, b, r) && p in a && 1 <= p.tag / 0x1000_0000 <= 10
    ensures (exists q :: q in r && SameField(q, p)) <==> !exists o :: o in b && SameField(o, p)
  {
    hide KeyParamLess, KeyParamEqual, Ties, SameField, IsDeduplicated;
    var d :| IsDeduplicated(a, d) && r == Without(d, b);
    var i := DeduplicatedKeepsValues(a, d, p);
    forall q | SameField(q, p)
      ensures Covered(b, q) <==> exists o :: o in b && SameField(o, p)
    {
      CoveredBySameField(b, p, q);
    }
    forall q
      ensures q in r <==> q in d && !Covered(b, q)
    {
      WithoutHolds(d, b, q);
    }
    assert d[i] in d;
  }

  lemma {:induction false} WithoutHolds(d: seq<KeyParameter>, b: seq<KeyParameter>, q: KeyParameter)
    ensures q in Without(d, b) <==> q in d && !Covered(b, q)
  {
    hide Covered;
    if d != [] {
      WithoutHolds(d[1..], b, q);
    }
  }

  lemma CoveredBySameField(b: seq<KeyParameter>, p: KeyParameter, q: KeyParameter)
    requires SameField(q, p)
    ensures Covered(b, q) <==> exists o :: o in b && SameField(o, p)
  {
    hide KeyParamEqual;
    forall o
      ensures KeyParamEqual(o, q) <==> SameField(o, p)
    {
      EqualExactly(o, q);
    }
  }

  lemma CoveredIsTied(s: seq<KeyParameter>, p: KeyParameter)
    requires KnownType(p)
    ensures Covered(s, p) <==> Ties(s, p) > 0
  {
    TiesAtLeastOne(s, p);
    forall o | o in s
      ensures KeyParamEqual(o, p) <==> Tie(o, p)
    {
      TieIsEqual(o, p);
      TieIsEqual(p, o);
    }
  }

  // ----- canonical form

  /** A sorted list is determined, up to ties, by how often each class occurs. */
  lemma {:induction false} SortedIsCanonical(a: seq<KeyParameter>, b: seq<KeyParameter>)
    requires Sorted(a) && Sorted(b)
    requires forall p :: Ties(a, p) == Ties(b, p)
    ensures SameUpToTies(a, b)
  {
    hide KeyParamLess, KeyParamEqual;
    SameEmptiness(a, b);
    SameEmptiness(b, a);
    if a != [] {
      FirstNotAbove(a, b);
      FirstNotAbove(b, a);
      forall p
        ensures Ties(a[1..], p) == Ties(b[1..], p)
      {
        LessRespectsTie(a[0], b[0], p);
        assert Ties(a, p) == Ties(b, p);
      }
      SortedIsCanonical(a[1..], b[1..]);
      assert forall i :: 0 < i < |a| ==> a[i] == a[1..][i - 1] && b[i] == b[1..][i - 1];
    }
  }

  lemma SameEmptiness(a: seq<KeyParameter>, b: seq<KeyParameter>)
    requires forall p :: Ties(a, p) == Ties(b, p)
    ensures b == [] ==> a == []
  {
    if a != [] {
      TieTags(a[0], a[0]);
      assert Ties(b, a[0]) == Ties(a, a[0]) > 0;
    }
  }

  lemma FirstNotAbove(a: seq<KeyParameter>, b: seq<KeyParameter>)
    requires Sorted(b) && a != [] && b != []
    requires forall p :: Ties(a, p) == Ties(b, p)
    ensures !KeyParamLess(a[0], b[0])
  {
    LessAsymmetric(a[0], a[0]);
    assert Ties(b, a[0]) == Ties(a, a[0]) > 0;
    TiesAtLeastOne(b, a[0]);
    var i :| 0 <= i < |b| && Tie(b[i], a[0]);
    LessRespectsTie(b[i], a[0], b[0]);
    LessAsymmetric(b[0], b[0]);
  }

  // ----- the algebra

  lemma UnionCommutes(a: seq<KeyParameter>, b: seq<KeyParameter>, r: seq<KeyParameter>, r': seq<KeyParameter>)
    requires IsUnion(a, b, r) && IsUnion(b, a, r')
    ensures SameUpToTies(r, r')
  {
    forall p
      ensures Ties(r, p) == Ties(r', p)
    {
      UnionTies(a, b, r, p);
      UnionTies(b, a, r', p);
    }
    SortedIsCanonical(r, r');
  }

  lemma UnionTies(a: seq<KeyParameter>, b: seq<KeyParameter>, r: seq<KeyParameter>, p: KeyParameter)
    requires IsUnion(a, b, r)
    ensures Ties(r, p) ==
      if !KnownType(p) then Ties(a, p) + Ties(b, p)
      else if Ties(a, p) + Ties(b, p) == 0 || (p.tag == TAG_INVALID && !(AllInvalid(a) && AllInvalid(b))) then 0
      else 1
  {
    TiesConcat(a, b, p);
    assert Ties(r, p) == TiesAfterDeduplication(a + b, p);
    AllInvalidConcat(a, b);
  }

  lemma DeduplicatedAllInvalid(s: seq<KeyParameter>, r: seq<KeyParameter>)
    requires IsDeduplicated(s, r)
    ensures AllInvalid(r) <==> AllInvalid(s)
  {
    assert forall x :: x in s <==> x in multiset(s);
    assert forall x :: x in r <==> x in multiset(r);
    if x :| x in s && x.tag != TAG_INVALID {
      var i :| 0 <= i < |s| && s[i] == x;
      LessAsymmetric(x, x);
      TiesAtLeastOne(s, x);
      assert Ties(r, x) == TiesAfterDeduplication(s, x) > 0;
      TiesAtLeastOne(r, x);
      var j :| 0 <= j < |r| && Tie(r[j], x);
      assert r[j] in r && r[j].tag == x.tag;
    }
  }

  lemma UnionAssociates(a: seq<KeyParameter>, b: seq<KeyParameter>, c: seq<KeyParameter>,
                        ab: seq<KeyParameter>, r: seq<KeyParameter>,
                        bc: seq<KeyParameter>, r': seq<KeyParameter>)
    requires IsUnion(a, b, ab) && IsUnion(ab, c, r)
    requires IsUnion(b, c, bc) && IsUnion(a, bc, r')
    ensures SameUpToTies(r, r')
  {
    hide KeyParamLess, KeyParamEqual;
    AllInvalidConcat(a, b);
    AllInvalidConcat(b, c);
    DeduplicatedAllInvalid(a + b, ab);
    DeduplicatedAllInvalid(b + c, bc);
    forall p
      ensures Ties(r, p) == Ties(r', p)
    {
      UnionTies(a, b, ab, p);
      UnionTies(ab, c, r, p);
      UnionTies(b, c, bc, p);
      UnionTies(a, bc, r', p);
    }
    SortedIsCanonical(r, r');
  }

  /** Union with itself changes nothing exactly when every entry has a known type: entries of other
      types are never recognised as duplicates and double. */
  lemma UnionIdempotent(a: seq<KeyParameter>, d: seq<KeyParameter>, u: seq<KeyParameter>)
    requires IsDeduplicated(a, d) && IsUnion(a, a, u)
    ensures SameUpToTies(u, d) <==> AllKnown(a)
  {
    forall p
      ensures Ties(u, p) == if KnownType(p) then Ties(d, p) else 2 * Ties(d, p)
    {
      UnionTies(a, a, u, p);
      assert Ties(d, p) == TiesAfterDeduplication(a, p);
    }
    if AllKnown(a) {
      forall p
        ensures Ties(u, p) == Ties(d, p)
      {
        if !KnownType(p) {
          UnknownAbsent(a, p);
          assert Ties(d, p) == TiesAfterDeduplication(a, p);
        }
      }
      SortedIsCanonical(u, d);
    } else {
      var p :| p in a && !KnownType(p);
      UnknownPresent(a, p);
      assert Ties(d, p) == TiesAfterDeduplication(a, p);
      if SameUpToTies(u, d) {
        SameTies(u, d, p);
      }
    }
  }

  lemma UnknownAbsent(s: seq<KeyParameter>, p: KeyParameter)
    requires AllKnown(s) && !KnownType(p)
    ensures Ties(s, p) == 0
  {
    TiesAtLeastOne(s, p);
    forall i | 0 <= i < |s|
      ensures !Tie(s[i], p)
    {
      assert s[i] in s;
      TieTags(s[i], p);
    }
  }

  lemma UnknownPresent(s: seq<KeyParameter>, p: KeyParameter)
    requires p in s
    ensures Ties(s, p) > 0
  {
    LessAsymmetric(p, p);
    var i :| 0 <= i < |s| && s[i] == p;
    TiesAtLeastOne(s, p);
  }

  lemma {:induction false} SameTies(a: seq<KeyParameter>, b: seq<KeyParameter>, p: KeyParameter)
    requires SameUpToTies(a, b)
    ensures Ties(a, p) == Ties(b, p)
  {
    if a != [] {
      SameTies(a[1..], b[1..], p);
      LessRespectsTie(a[0], b[0], p);
    }
  }

  // ----- Subtract

  lemma WithoutHead(d: seq<KeyParameter>, b: seq<KeyParameter>)
    ensures Without(d, b) ==
      if d == [] then [] else (if Covered(b, d[0]) then [] else [d[0]]) + Without(d[1..], b)
  {
  }

  lemma {:induction false} WithoutConcat(d: seq<KeyParameter>, e: seq<KeyParameter>, b: seq<KeyParameter>)
    ensures Without(d + e, b) == Without(d, b) + Without(e, b)
  {
    hide KeyParamLess, KeyParamEqual, Covered, Without;
    WithoutHead(d, b);
    WithoutHead(d + e, b);
    if d == [] {
      assert d + e == e;
    } else {
      WithoutConcat(d[1..], e, b);
      assert (d + e)[0] == d[0] && (d + e)[1..] == d[1..] + e;
    }
  }

  lemma {:induction false} WithoutTwice(d: seq<KeyParameter>, b: seq<KeyParameter>, o: KeyParameter)
    ensures Without(Without(d, b), [o]) == Without(d, b + [o])
  {
    hide KeyParamLess, KeyParamEqual;
    if d != [] {
      WithoutTwice(d[1..], b, o);
      assert Covered(b + [o], d[0]) <==> Covered(b, d[0]) || Covered([o], d[0]) by {
        assert forall x :: x in b + [o] <==> x in b || x in [o];
      }
      var head := if Covered(b, d[0]) then [] else [d[0]];
      WithoutConcat(head, Without(d[1..], b), [o]);
      if !Covered(b, d[0]) {
        assert Without([d[0]], [o]) == if Covered([o], d[0]) then [] else [d[0]];
      }
    }
  }

  lemma {:induction false} WithoutNothing(d: seq<KeyParameter>, b: seq<KeyParameter>)
    requires forall i :: 0 <= i < |d| ==> !Covered(b, d[i])
    ensures Without(d, b) == d
  {
    if d != [] {
      WithoutNothing(d[1..], b);
    }
  }

  /** Erasing the only entry equal to `o` is removing everything equal to `o`. */
  lemma WithoutOne(d: seq<KeyParameter>, o: KeyParameter, k: nat)
    requires k < |d| && KeyParamEqual(o, d[k]) && Ties(d, o) <= 1
    ensures Without(d, [o]) == d[..k] + d[k + 1..]
  {
    hide KeyParamLess, KeyParamEqual, Without, Ties;
    TieIsEqual(o, d[k]);
    var before, after := d[..k], d[k + 1..];
    TiesErase(d, k, o);
    TiesConcat(before, after, o);
    assert Ties(before, o) == Ties(after, o) == 0;
    OnlyTieUncovered(before, o);
    OnlyTieUncovered(after, o);
    WithoutNothing(before, [o]);
    WithoutNothing(after, [o]);
    assert d == before + [d[k]] + after;
    WithoutConcat(before + [d[k]], after, [o]);
    WithoutConcat(before, [d[k]], [o]);
    assert Without([d[k]], [o]) == [] by {
      assert o in [o] && Covered([o], d[k]) && [d[k]][1..] == [];
      WithoutHead([d[k]], [o]);
      WithoutHead([], [o]);
    }
  }

  lemma OtherTagsDiffer(d: seq<KeyParameter>, o: KeyParameter)
    ensures forall i :: 0 <= i < |d| && d[i].tag != o.tag ==> !KeyParamEqual(o, d[i])
  {
  }

  lemma NothingCovered(d: seq<KeyParameter>, o: KeyParameter)
    ensures forall i :: 0 <= i < |d| && !KeyParamEqual(o, d[i]) ==> !Covered([o], d[i])
  {
    hide KeyParamEqual;
  }

  lemma OnlyTieUncovered(d: seq<KeyParameter>, o: KeyParameter)
    requires Ties(d, o) == 0
    ensures forall i :: 0 <= i < |d| ==> !Covered([o], d[i])
  {
    TiesAtLeastOne(d, o);
    forall i | 0 <= i < |d|
      ensures !KeyParamEqual(o, d[i])
    {
      TieIsEqual(o, d[i]);
    }
  }

  lemma {:induction false} WithoutTies(d: seq<KeyParameter>, b: seq<KeyParameter>, p: KeyParameter)
    ensures Ties(Without(d, b), p) == if Covered(b, p) then 0 else Ties(d, p)
  {
    if d != [] {
      WithoutTies(d[1..], b, p);
      TiesConcat(if Covered(b, d[0]) then [] else [d[0]], Without(d[1..], b), p);
      if Tie(d[0], p) {
        CoveredRespectsTie(b, d[0], p);
      }
    }
  }

  lemma CoveredRespectsTie(b: seq<KeyParameter>, p: KeyParameter, q: KeyParameter)
    requires Tie(p, q)
    ensures Covered(b, p) <==> Covered(b, q)
  {
    assert p.tag == q.tag;
    forall o | o in b
      ensures KeyParamEqual(o, p) <==> KeyParamEqual(o, q)
    {
      TieIsEqual(o, p);
      TieIsEqual(o, q);
      LessRespectsTie(p, q, o);
    }
  }

  lemma DifferenceTies(a: seq<KeyParameter>, b: seq<KeyParameter>, r: seq<KeyParameter>, p: KeyParameter)
    requires IsDifference(a, b, r)
    ensures Ties(r, p) == if Covered(b, p) then 0 else TiesAfterDeduplication(a, p)
  {
    var d :| IsDeduplicated(a, d) && r == Without(d, b);
    WithoutTies(d, b, p);
    assert Ties(d, p) == TiesAfterDeduplication(a, p);
  }

  lemma {:induction false} WithoutIsSorted(d: seq<KeyParameter>, b: seq<KeyParameter>)
    requires Sorted(d)
    ensures Sorted(Without(d, b)) && multiset(Without(d, b)) <= multiset(d)
  {
    if d != [] {
      WithoutIsSorted(d[1..], b);
      assert d == [d[0]] + d[1..];
      forall x | x in Without(d[1..], b)
        ensures !KeyParamLess(x, d[0])
      {
        assert x in multiset(d[1..]);
        var i :| 0 <= i < |d[1..]| && d[1..][i] == x;
        assert d[i + 1] == x;
      }
    }
  }

  /** Subtracting what was just added gives the same as subtracting it from the start, exactly
      unless the added set holds a type that equality never recognises, or an INVALID entry was
      alone before and was dropped by the union. */
  lemma UnionThenSubtract(a: seq<KeyParameter>, b: seq<KeyParameter>, u: seq<KeyParameter>,
                          r: seq<KeyParameter>, r': seq<KeyParameter>)
    requires IsUnion(a, b, u) && IsDifference(u, b, r) && IsDifference(a, b, r')
    ensures SameUpToTies(r, r') <==>
      && AllKnown(b)
      && !(a != [] && AllInvalid(a) && b != [] && !Covered(b, DEFAULT_PARAMETER))
  {
    hide KeyParamLess, KeyParamEqual, IsDifference, TiesAfterDeduplication, IsDeduplicated;
    var invalid := DEFAULT_PARAMETER;
    if AllKnown(b) && !(a != [] && AllInvalid(a) && b != [] && !Covered(b, invalid)) {
      forall p
        ensures Ties(r, p) == Ties(r', p)
      {
        if !KnownType(p) {
          RoundTiesUnknown(a, b, u, r, r', p);
          UnknownAbsent(b, p);
        } else if p.tag != TAG_INVALID {
          RoundTiesValid(a, b, u, r, r', p);
        } else {
          RoundTiesInvalid(a, b, u, r, r', p);
          TieTags(p, invalid);
          CoveredRespectsTie(b, p, invalid);
        }
      }
      DifferenceIsSorted(u, b, r);
      DifferenceIsSorted(a, b, r');
      SortedIsCanonical(r, r');
    } else if !AllKnown(b) {
      var p :| p in b && !KnownType(p);
      UnknownPresent(b, p);
      RoundTiesUnknown(a, b, u, r, r', p);
      if SameUpToTies(r, r') {
        SameTies(r, r', p);
      }
    } else {
      RoundTiesInvalid(a, b, u, r, r', invalid);
      if SameUpToTies(r, r') {
        SameTies(r, r', invalid);
      }
    }
  }

  lemma DifferenceIsSorted(a: seq<KeyParameter>, b: seq<KeyParameter>, r: seq<KeyParameter>)
    requires IsDifference(a, b, r)
    ensures Sorted(r)
  {
    var d :| IsDeduplicated(a, d) && r == Without(d, b);
    WithoutIsSorted(d, b);
  }

  lemma InvalidPresent(a: seq<KeyParameter>)
    requires a != [] && AllInvalid(a)
    ensures Ties(a, DEFAULT_PARAMETER) > 0
  {
    hide KeyParamLess, KeyParamEqual;
    assert a[0] in a;
    TieTags(a[0], DEFAULT_PARAMETER);
  }

  lemma NotAllInvalid(b: seq<KeyParameter>)
    requires b != [] && !Covered(b, DEFAULT_PARAMETER)
    ensures !AllInvalid(b)
  {
    assert b[0] in b && !KeyParamEqual(b[0], DEFAULT_PARAMETER);
  }

  /** Both routes of UnionThenSubtract, class by class. */
  lemma RoundTiesUnknown(a: seq<KeyParameter>, b: seq<KeyParameter>, u: seq<KeyParameter>,
                         r: seq<KeyParameter>, r': seq<KeyParameter>, p: KeyParameter)
    requires IsUnion(a, b, u) && IsDifference(u, b, r) && IsDifference(a, b, r') && !KnownType(p)
    ensures Ties(r, p) == Ties(a, p) + Ties(b, p) && Ties(r', p) == Ties(a, p)
  {
    hide KeyParamLess, KeyParamEqual, IsDifference, IsDeduplicated, Covered, Ties;
    DifferenceTies(u, b, r, p);
    DifferenceTies(a, b, r', p);
    UnionTies(a, b, u, p);
    UnknownIsUncovered(b, p);
  }

  lemma UnknownIsUncovered(b: seq<KeyParameter>, p: KeyParameter)
    requires !KnownType(p)
    ensures !Covered(b, p)
  {
  }

  lemma RoundTiesValid(a: seq<KeyParameter>, b: seq<KeyParameter>, u: seq<KeyParameter>,
                       r: seq<KeyParameter>, r': seq<KeyParameter>, p: KeyParameter)
    requires IsUnion(a, b, u) && IsDifference(u, b, r) && IsDifference(a, b, r')
    requires KnownType(p) && p.tag != TAG_INVALID
    ensures Ties(r, p) == Ties(r', p)
  {
    hide KeyParamLess, KeyParamEqual, IsDifference, IsDeduplicated, Covered, Ties;
    DifferenceTies(u, b, r, p);
    DifferenceTies(a, b, r', p);
    UnionTies(a, b, u, p);
    CoveredIsTied(b, p);
  }

  lemma RoundTiesInvalid(a: seq<KeyParameter>, b: seq<KeyParameter>, u: seq<KeyParameter>,
                         r: seq<KeyParameter>, r': seq<KeyParameter>, p: KeyParameter)
    requires IsUnion(a, b, u) && IsDifference(u, b, r) && IsDifference(a, b, r') && p.tag == TAG_INVALID
    ensures Ties(r, p) == if !Covered(b, p) && a != [] && AllInvalid(a) && b == [] then 1 else 0
    ensures Ties(r', p) == if !Covered(b, p) && a != [] && AllInvalid(a) then 1 else 0
  {
    hide KeyParamLess, KeyParamEqual, IsDifference, IsDeduplicated;
    DifferenceTies(u, b, r, p);
    DifferenceTies(a, b, r', p);
    UnionTies(a, b, u, p);
    CoveredIsTied(b, p);
    AllInvalidConcat(a, b);
    DeduplicatedAllInvalid(a + b, u);
    TieTags(p, DEFAULT_PARAMETER);
    CoveredRespectsTie(b, p, DEFAULT_PARAMETER);
    TiesRespectsTie(a, p, DEFAULT_PARAMETER);
    if a != [] && AllInvalid(a) {
      InvalidPresent(a);
    }
    if b != [] && !Covered(b, p) {
      NotAllInvalid(b);
    }
  }

  lemma AllInvalidConcat(a: seq<KeyParameter>, b: seq<KeyParameter>)
    ensures AllInvalid(a + b) <==> AllInvalid(a) && AllInvalid(b)
  {
    assert forall x :: x in a + b <==> x in a || x in b;
  }

  // ----- the class

  /** Inserting into a sorted list; `Sort` is specified without it. */
  method Insert(s: seq<KeyParameter>, x: KeyParameter) returns (r: seq<KeyParameter>)
    requires Sorted(s)
    ensures Sorted(r) && multiset(r) == multiset(s) + multiset{x}
  {
    hide KeyParamLess;
    var i := |s|;
    while i > 0 && KeyParamLess(x, s[i - 1])
      invariant 0 <= i <= |s|
      invariant forall j :: i <= j < |s| ==> KeyParamLess(x, s[j])
    {
      i := i - 1;
    }
    forall j | 0 <= j < i
      ensures !KeyParamLess(x, s[j])
    {
      if KeyParamLess(x, s[j]) && j < i - 1 {
        NotLessTransitive(s[i - 1], s[j], x);
      }
    }
    forall j | i <= j < |s|
      ensures !KeyParamLess(s[j], x)
    {
      LessAsymmetric(x, s[j]);
    }
    r := s[..i] + [x] + s[i..];
    assert s == s[..i] + s[i..];
  }

  lemma NotLessTransitive(a: KeyParameter, b: KeyParameter, c: KeyParameter)
    requires !KeyParamLess(a, b) && KeyParamLess(c, b)
    ensures KeyParamLess(c, a)
  {
    LessAsymmetric(a, b);
    if !KeyParamLess(c, a) {
      if KeyParamLess(b, a) {
        LessTransitive(c, b, a);
      } else {
        LessRespectsTie(a, b, c);
      }
    }
  }

  class AuthorizationSet {
    var data: seq<KeyParameter>

    constructor (params: seq<KeyParameter>)
      ensures data == params
    {
      data := params;
    }

    method Sort()
      modifies this
      ensures Sorted(data) && multiset(data) == multiset(old(data))
    {
      var sorted: seq<KeyParameter> := [];
      for i := 0 to |data|
        invariant data == old(data)
        invariant Sorted(sorted) && multiset(sorted) == multiset(data[..i])
      {
        sorted := Insert(sorted, data[i]);
        assert data[..i + 1] == data[..i] + [data[i]];
      }
      assert data[..|data|] == data;
      data := sorted;
    }

    method Deduplicate()
      modifies this
      ensures IsDeduplicated(old(data), data)
    {
      if |data| == 0 {
        return;
      }
      Sort();
      var result: seq<KeyParameter> := [];
      var prev, curr := 0, 1;
      while curr != |data|
        invariant prev + 1 == curr <= |data|
        invariant result == Collapse(data, prev)
      {
        if data[prev].tag != TAG_INVALID {
          if !KeyParamEqual(data[prev], data[curr]) {
            result := result + [data[prev]];
          }
        }
        prev, curr := prev + 1, curr + 1;
      }
      result := result + [data[prev]];
      CollapseDeduplicates(data, result);
      DeduplicatedOfPermutation(data, old(data), result);
      data := result;
    }

    method Union(other: AuthorizationSet)
      modifies this
      ensures IsUnion(old(data), old(other.data), data)
    {
      data := data + other.data;
      Deduplicate();
    }

    /** The first entry with this tag after index `begin`, or -1. */
    method Find(tag: Tag, begin: int) returns (pos: int)
      requires -1 <= begin < |data|
      ensures pos == -1 || begin < pos < |data|
      ensures pos != -1 ==> data[pos].tag == tag
      ensures forall i :: begin < i < (if pos == -1 then |data| else pos) ==> data[i].tag != tag
    {
      var iter := 1 + begin;
      while iter != |data| && data[iter].tag != tag
        invariant begin < iter <= |data|
        invariant forall i :: begin < i < iter ==> data[i].tag != tag
      {
        iter := iter + 1;
      }
      return if iter != |data| then iter else -1;
    }

    /** How many entries have this tag, found by repeated searches. */
    method GetTagCount(tag: Tag) returns (count: nat)
      ensures count == |set i | 0 <= i < |data| && data[i].tag == tag|
    {
      count := 0;
      var pos := Find(tag, -1);
      ghost var seen: set<int> := {};
      ghost var below := if pos == -1 then |data| else pos;
      while pos != -1
        invariant pos != -1 ==> 0 <= pos < |data| && data[pos].tag == tag
        invariant below == if pos == -1 then |data| else pos
        invariant seen == set i | 0 <= i < below && data[i].tag == tag
        invariant count == |seen|
        decreases |data| - below
      {
        count := count + 1;
        seen := seen + {pos};
        pos := Find(tag, pos);
        below := if pos == -1 then |data| else pos;
      }
    }

    /** Removes one entry for each entry of `other` that equals it.  The source's iterators do not
        survive subtracting a set from itself, so the two are distinct objects. */
    method Subtract(other: AuthorizationSet)
      requires other != this
      modifies this
      ensures IsDifference(old(data), other.data, data)
    {
      Deduplicate();
      ghost var d := data;
      var i := 0;
      WithoutNothing(d, []);
      assert other.data[..0] == [];
      while i != |other.data|
        invariant 0 <= i <= |other.data|
        invariant data == Without(d, other.data[..i])
        decreases |other.data| - i
      {
        assert Ties(d, other.data[i]) == TiesAfterDeduplication(old(data), other.data[i]);
        WithoutTies(d, other.data[..i], other.data[i]);
        EraseMatching(other.data[i]);
        WithoutTwice(d, other.data[..i], other.data[i]);
        assert other.data[..i] + [other.data[i]] == other.data[..i + 1];
        i := i + 1;
      }
      assert other.data[..i] == other.data;
    }

    /** One round of Subtract: search among the entries with the tag of `o` until one equals it. */
    method EraseMatching(o: KeyParameter)
      requires Ties(data, o) <= 1 || !KnownType(o)
      modifies this
      ensures data == Without(old(data), [o])
    {
      hide KeyParamEqual, KeyParamLess, Ties, Covered, Without;
      var pos := -1;
      OtherTagsDiffer(data, o);
      NothingCovered(data, o);
      while true
        invariant -1 <= pos < |data| && data == old(data)
        invariant forall j :: 0 <= j <= pos ==> !KeyParamEqual(o, data[j])
        decreases |data| - pos
      {
        var next := Find(o.tag, pos);
        if next != -1 && KeyParamEqual(o, data[next]) {
          assert KnownType(o) by { TieIsEqual(o, data[next]); }
          WithoutOne(data, o, next);
          data := data[..next] + data[next + 1..];
          return;
        }
        if next == -1 {
          WithoutNothing(data, [o]);
          return;
        }
        pos := next;
      }
    }

    method Serialize() returns (r: ParamStreams.Result<seq<byte>>)
      ensures r == ParamStreams.Serialized(data)
    {
      r := ParamStreams.Serialize(data);
    }

    /** The stream is left as it is found when it is bad; else the set becomes what was read. */
    method Deserialize(input: ParamStreams.Stream) returns (rest: ParamStreams.Stream)
      modifies this
      ensures (rest, data) == ParamStreams.Deserialized(input, old(data))
    {
      rest, data := ParamStreams.Deserialize(input, data);
    }
  }
}
