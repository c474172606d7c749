/**
 * A Redis sorted set as a finite map from member to score, with the order
 * in which ZRANGE lists it: ascending score, ties broken by comparing the
 * member strings lexicographically.
 */
module SortedSet {

  type Member = string
  type Score = int

  datatype Entry = Entry(member: Member, score: Score)

  function Min(a: int, b: int): int { if a <= b then a else b }

  function Max(a: int, b: int): int { if a >= b then a else b }

  /** Strict lexicographic order on strings (a proper prefix comes first). */
  predicate LexLess(a: string, b: string)
    decreases |a|
  {
    if |a| == 0 then |b| > 0
    else if |b| == 0 then false
    else if a[0] != b[0] then a[0] < b[0]
    else LexLess(a[1..], b[1..])
  }

  lemma {:induction false} LexIrreflexive(a: string)
    ensures !LexLess(a, a)
    decreases |a|
  {
    if |a| > 0 {
      LexIrreflexive(a[1..]);
    }
  }

  lemma {:induction false} LexAsymmetric(a: string, b: string)
    requires LexLess(a, b)
    ensures !LexLess(b, a)
    decreases |a|
  {
    if |a| > 0 && |b| > 0 && a[0] == b[0] {
      LexAsymmetric(a[1..], b[1..]);
    }
  }

  lemma {:induction false} LexTransitive(a: string, b: string, c: string)
    requires LexLess(a, b) && LexLess(b, c)
    ensures LexLess(a, c)
    decreases |a|
  {
    if |a| > 0 && a[0] == b[0] && b[0] == c[0] {
      LexTransitive(a[1..], b[1..], c[1..]);
    }
  }

  lemma {:induction false} LexTotal(a: string, b: string)
    requires a != b
    ensures LexLess(a, b) || LexLess(b, a)
    decreases |a|
  {
    if |a| > 0 && |b| > 0 && a[0] == b[0] {
      assert a == [a[0]] + a[1..] && b == [b[0]] + b[1..];
      LexTotal(a[1..], b[1..]);
    }
  }

  /** x is listed before y by ZRANGE. */
  predicate Precedes(x: Entry, y: Entry) {
    x.score < y.score || (x.score == y.score && LexLess(x.member, y.member))
  }

  lemma PrecedesAsymmetric(x: Entry, y: Entry)
    requires Precedes(x, y)
    ensures !Precedes(y, x)
  {
    if x.score == y.score {
      LexAsymmetric(x.member, y.member);
    }
  }

  lemma PrecedesTransitive(x: Entry, y: Entry, z: Entry)
    requires Precedes(x, y) && Precedes(y, z)
    ensures Precedes(x, z)
  {
    if x.score == y.score == z.score {
      LexTransitive(x.member, y.member, z.member);
    }
  }

  lemma PrecedesTotal(x: Entry, y: Entry)
    requires x.member != y.member
    ensures Precedes(x, y) || Precedes(y, x)
  {
    LexTotal(x.member, y.member);
  }

  function At(m: map<Member, Score>, k: Member): Entry
    requires k in m
  {
    Entry(k, m[k])
  }

  /** k is the member that ZRANGE lists first. */
  ghost predicate IsFirst(m: map<Member, Score>, k: Member) {
    k in m && forall j :: j in m && j != k ==> Precedes(At(m, k), At(m, j))
  }

  /** k is the member that ZRANGE lists last. */
  ghost predicate IsLast(m: map<Member, Score>, k: Member) {
    k in m && forall j :: j in m && j != k ==> Precedes(At(m, j), At(m, k))
  }

  lemma {:induction false} FirstExists(m: map<Member, Score>)
    requires m != map[]
    ensures exists k :: IsFirst(m, k)
    decreases |m|
  {
    var x :| x in m;
    var rest := m - {x};
    if rest == map[] {
      assert m.Keys == {x} by { assert rest.Keys == m.Keys - {x}; }
      assert IsFirst(m, x);
    } else {
      RemoveOne(m, x);
      FirstExists(rest);
      var y :| IsFirst(rest, y);
      assert At(rest, y) == At(m, y);
      PrecedesTotal(At(m, x), At(m, y));
      if Precedes(At(m, x), At(m, y)) {
        forall j | j in m && j != x
          ensures Precedes(At(m, x), At(m, j))
        {
          if j != y {
            assert j in rest && At(rest, j) == At(m, j);
            PrecedesTransitive(At(m, x), At(m, y), At(m, j));
          }
        }
        assert IsFirst(m, x);
      } else {
        forall j | j in m && j != y
          ensures Precedes(At(m, y), At(m, j))
        {
          if j != x {
            assert j in rest && At(rest, j) == At(m, j);
          }
        }
        assert IsFirst(m, y);
      }
    }
  }

  lemma FirstUnique(m: map<Member, Score>, a: Member, b: Member)
    requires IsFirst(m, a) && IsFirst(m, b)
    ensures a == b
  {
    if a != b {
      PrecedesAsymmetric(At(m, a), At(m, b));
    }
  }

  lemma LastUnique(m: map<Member, Score>, a: Member, b: Member)
    requires IsLast(m, a) && IsLast(m, b)
    ensures a == b
  {
    if a != b {
      PrecedesAsymmetric(At(m, a), At(m, b));
    }
  }

  /** The member at ZRANGE index 0. */
  ghost function FirstMember(m: map<Member, Score>): (k: Member)
    requires m != map[]
    ensures IsFirst(m, k)
  {
    FirstExists(m);
    var k :| IsFirst(m, k); k
  }

  lemma RemoveOne(m: map<Member, Score>, k: Member)
    requires k in m
    ensures |m - {k}| == |m| - 1
  {
    assert (m - {k}).Keys == m.Keys - {k};
  }

  /** The whole sorted set as ZRANGE key 0 -1 WITHSCORES lists it. */
  ghost function Ranked(m: map<Member, Score>): seq<Entry>
    decreases |m|
  {
    if m == map[] then []
    else
      var k := FirstMember(m);
      RemoveOne(m, k);
      [At(m, k)] + Ranked(m - {k})
  }

  /** Unfolds Ranked once: the first member, then the ranking of the rest. */
  lemma RankedStep(m: map<Member, Score>)
    requires m != map[]
    ensures |m - {FirstMember(m)}| == |m| - 1
    ensures Ranked(m) == [At(m, FirstMember(m))] + Ranked(m - {FirstMember(m)})
  {
    RemoveOne(m, FirstMember(m));
  }

  lemma {:induction false} RankedLength(m: map<Member, Score>)
    ensures |Ranked(m)| == |m|
    decreases |m|
  {
    if m != map[] {
      RankedStep(m);
      RankedLength(m - {FirstMember(m)});
    }
  }

  /** Every listed entry is a member of m with its score. */
  lemma {:induction false} RankedEntries(m: map<Member, Score>)
    ensures forall i :: 0 <= i < |Ranked(m)| ==>
              Ranked(m)[i].member in m && Ranked(m)[i] == At(m, Ranked(m)[i].member)
    decreases |m|
  {
    if m != map[] {
      var k := FirstMember(m);
      var rest := m - {k};
      RankedStep(m);
      RankedEntries(rest);
      var r := Ranked(m);
      forall i | 0 <= i < |r|
        ensures r[i].member in m && r[i] == At(m, r[i].member)
      {
        if i > 0 {
          assert r[i] == Ranked(rest)[i - 1];
        }
      }
    }
  }

  /** Every member of m is listed. */
  lemma {:induction false} RankedCovers(m: map<Member, Score>)
    ensures forall k :: k in m ==> exists i :: 0 <= i < |Ranked(m)| && Ranked(m)[i].member == k
    decreases |m|
  {
    if m != map[] {
      var k := FirstMember(m);
      var rest := m - {k};
      RankedStep(m);
      RankedCovers(rest);
      var r := Ranked(m);
      forall x | x in m
        ensures exists i :: 0 <= i < |r| && r[i].member == x
      {
        if x == k {
          assert r[0].member == x;
        } else {
          assert x in rest;
          var i :| 0 <= i < |Ranked(rest)| && Ranked(rest)[i].member == x;
          assert r[i + 1].member == x;
        }
      }
    }
  }

  /** The listing is strictly ascending in ZRANGE order. */
  lemma {:induction false} RankedSorted(m: map<Member, Score>)
    ensures forall i, j :: 0 <= i < j < |Ranked(m)| ==> Precedes(Ranked(m)[i], Ranked(m)[j])
    decreases |m|
  {
    if m != map[] {
      var k := FirstMember(m);
      var rest := m - {k};
      RankedStep(m);
      RankedSorted(rest);
      RankedEntries(rest);
      var r := Ranked(m);
      forall i, j | 0 <= i < j < |r|
        ensures Precedes(r[i], r[j])
      {
        var e := Ranked(rest)[j - 1];
        assert r[j] == e;
        if i == 0 {
          assert e.member in rest && e == At(rest, e.member);
          assert e.member in m && e.member != k && e == At(m, e.member);
        } else {
          assert r[i] == Ranked(rest)[i - 1];
        }
      }
    }
  }

  /** The listing holds each member of m once, with its score, in ZRANGE order. */
  lemma RankedListsSet(m: map<Member, Score>)
    ensures |Ranked(m)| == |m|
    ensures forall i :: 0 <= i < |Ranked(m)| ==>
              Ranked(m)[i].member in m && Ranked(m)[i] == At(m, Ranked(m)[i].member)
    ensures forall k :: k in m ==> exists i :: 0 <= i < |Ranked(m)| && Ranked(m)[i].member == k
    ensures forall i, j :: 0 <= i < j < |Ranked(m)| ==> Precedes(Ranked(m)[i], Ranked(m)[j])
  {
    RankedLength(m);
    RankedEntries(m);
    RankedCovers(m);
    RankedSorted(m);
  }

  /** Score of the first entry of ZRANGE (index 0). */
  ghost function LeastScore(m: map<Member, Score>): Score
    requires m != map[]
  {
    Ranked(m)[0].score
  }

  /** Score of the last entry of ZRANGE (index -1). */
  ghost function GreatestScore(m: map<Member, Score>): Score
    requires m != map[]
  {
    RankedListsSet(m);
    Ranked(m)[|m| - 1].score
  }

  ghost predicate IsLeast(s: Score, values: set<Score>) {
    s in values && forall v :: v in values ==> s <= v
  }

  ghost predicate IsGreatest(s: Score, values: set<Score>) {
    s in values && forall v :: v in values ==> v <= s
  }

  lemma LeastScoreIsLeast(m: map<Member, Score>)
    requires m != map[]
    ensures IsLeast(LeastScore(m), m.Values)
  {
    var k := FirstMember(m);
    assert Ranked(m)[0] == At(m, k);
    forall v | v in m.Values
      ensures LeastScore(m) <= v
    {
      var j :| j in m && m[j] == v;
      if j != k { assert Precedes(At(m, k), At(m, j)); }
    }
  }

  /** Where ZRANGE lists a member of m. */
  ghost function IndexOf(m: map<Member, Score>, k: Member): (i: nat)
    requires k in m
    ensures i < |Ranked(m)| && Ranked(m)[i].member == k
  {
    RankedCovers(m);
    var i :| 0 <= i < |Ranked(m)| && Ranked(m)[i].member == k;
    i
  }

  /** Two listed entries, in the order ZRANGE lists them. */
  lemma RankedPrecedes(m: map<Member, Score>, i: nat, j: nat)
    requires i < j < |Ranked(m)|
    ensures Precedes(Ranked(m)[i], Ranked(m)[j])
  {
    RankedSorted(m);
  }

  lemma LastIsLast(m: map<Member, Score>)
    requires m != map[]
    ensures |Ranked(m)| == |m|
    ensures IsLast(m, Ranked(m)[|m| - 1].member)
    ensures Ranked(m)[|m| - 1] == At(m, Ranked(m)[|m| - 1].member)
  {
    RankedLength(m);
    RankedEntries(m);
    var r := Ranked(m);
    var last := r[|m| - 1];
    forall j | j in m && j != last.member
      ensures Precedes(At(m, j), last)
    {
      var i := IndexOf(m, j);
      RankedPrecedes(m, i, |m| - 1);
    }
  }

  lemma GreatestScoreIsGreatest(m: map<Member, Score>)
    requires m != map[]
    ensures IsGreatest(GreatestScore(m), m.Values)
  {
    LastIsLast(m);
    var k := Ranked(m)[|m| - 1].member;
    forall v | v in m.Values
      ensures v <= GreatestScore(m)
    {
      var j :| j in m && m[j] == v;
      if j != k { assert Precedes(At(m, j), At(m, k)); }
    }
  }

  /**
   * The min-score fold used by ickadd and ickreserve: a member that is
   * absent is inserted, a strictly lower score replaces the stored one,
   * anything else leaves the set alone.
   */
  function Fold(m: map<Member, Score>, k: Member, s: Score): (r: map<Member, Score>)
    ensures r.Keys == m.Keys + {k}
    ensures r[k] == if k in m then Min(m[k], s) else s
    ensures forall j :: j in m && j != k ==> r[j] == m[j]
  {
    if k !in m || s < m[k] then m[k := s] else m
  }

  /** ZRANGE key 0 0: the lowest-ranked entry, found by one scan. */
  method Lowest(m: map<Member, Score>) returns (e: Entry)
    requires m != map[]
    ensures e == Ranked(m)[0]
  {
    var rest := m.Keys;
    var k :| k in rest;
    e := At(m, k);
    rest := rest - {k};
    while rest != {}
      invariant rest <= m.Keys
      invariant e.member in m && e == At(m, e.member) && e.member !in rest
      invariant forall j :: j in m && j !in rest && j != e.member ==> Precedes(e, At(m, j))
      decreases |rest|
    {
      var j :| j in rest;
      var cand := At(m, j);
      PrecedesTotal(cand, e);
      if Precedes(cand, e) {
        forall i | i in m && i !in rest - {j} && i != j
          ensures Precedes(cand, At(m, i))
        {
          if i != e.member { PrecedesTransitive(cand, e, At(m, i)); }
        }
        e := cand;
      }
      rest := rest - {j};
    }
    FirstUnique(m, e.member, FirstMember(m));
  }

  /** ZRANGE key -1 -1: the highest-ranked entry, found by one scan. */
  method Highest(m: map<Member, Score>) returns (e: Entry)
    requires m != map[]
    ensures |Ranked(m)| == |m| && e == Ranked(m)[|m| - 1]
  {
    var rest := m.Keys;
    var k :| k in rest;
    e := At(m, k);
    rest := rest - {k};
    while rest != {}
      invariant rest <= m.Keys
      invariant e.member in m && e == At(m, e.member) && e.member !in rest
      invariant forall j :: j in m && j !in rest && j != e.member ==> Precedes(At(m, j), e)
      decreases |rest|
    {
      var j :| j in rest;
      var cand := At(m, j);
      PrecedesTotal(cand, e);
      if Precedes(e, cand) {
        forall i | i in m && i !in rest - {j} && i != j
          ensures Precedes(At(m, i), cand)
        {
          if i != e.member { PrecedesTransitive(At(m, i), e, cand); }
        }
        e := cand;
      }
      rest := rest - {j};
    }
    LastIsLast(m);
    LastUnique(m, e.member, Ranked(m)[|m| - 1].member);
  }

  /** ZRANGE key 0 (n-1) WITHSCORES: the first n entries in ZRANGE order. */
  method RangeHead(m: map<Member, Score>, n: nat) returns (r: seq<Entry>)
    ensures |Ranked(m)| == |m|
    ensures r == Ranked(m)[..Min(n, |m|)]
  {
    RankedLength(m);
    r := [];
    var rest := m;
    while |r| < n && rest != map[]
      invariant r + Ranked(rest) == Ranked(m)
      invariant |r| <= n
      decreases |rest|
    {
      var e := Lowest(rest);
      RankedStep(rest);
      r := r + [e];
      rest := rest - {e.member};
    }
    RankedLength(rest);
    assert |r| + |rest| == |m|;
    assert Ranked(m)[..|r|] == r;
  }
}
