/**
 * The values an Ick is made of in Redis, the structural guard that every
 * script runs first (LUA_ICK_PREFIX), the Ruby argument validators, and
 * the pure definitions of what ickadd, ickreserve and ickcommit do to the
 * two sorted sets, with the properties the design promises of them.
 */
module IckSpec {

  import opened Wrappers
  import opened SortedSet

  /** The only manifest value the scripts recognise. */
  const Version: string := "ick.v1"

  /** What GET/TYPE find at the Ick's own key. */
  datatype Manifest = Absent | Present(s: string) | WrongType

  /** What TYPE finds at a derived sorted-set key. */
  datatype SetKey = NoSet | ZSet(members: map<Member, Score>) | NotZSet

  /** A script's error reply, or a Ruby ArgumentError. */
  datatype Error = Corrupt | OddArguments | BadArgument

  datatype Result<T> = Ok(value: T) | Err(error: Error)

  /** Redis deletes a sorted set when its last member is removed. */
  predicate Normal(k: SetKey) {
    !(k.ZSet? && k.members == map[])
  }

  /** The members ZSCORE/ZCARD/ZRANGE see at a key: none when it is missing. */
  function Members(k: SetKey): map<Member, Score> {
    if k.ZSet? then k.members else map[]
  }

  /** The key after a write leaves it holding m: gone when m is empty. */
  function Stored(m: map<Member, Score>): (k: SetKey)
    ensures Normal(k) && !k.NotZSet? && Members(k) == m
    ensures k == NoSet <==> m == map[]
  {
    if m == map[] then NoSet else ZSet(m)
  }

  /** A key that holds a sorted set, or nothing, is what storing its members gives. */
  lemma StoredMembers(k: SetKey)
    requires Normal(k) && !k.NotZSet?
    ensures Stored(Members(k)) == k
  {
  }

  /** ZSCORE key member. */
  function ZScore(k: SetKey, member: Member): (r: Option<Score>)
    ensures r.Some? <==> member in Members(k)
    ensures r.Some? ==> r.value == Members(k)[member]
  {
    if member in Members(k) then Some(Members(k)[member]) else None
  }

  /**
   * LUA_ICK_PREFIX, check by check: a manifest other than "ick.v1", a
   * manifest that is not a string, a derived key that is not a sorted set,
   * or a sorted set without a manifest aborts the script.
   */
  function Guard(m: Manifest, p: SetKey, c: SetKey): (ok: bool)
    ensures ok <==> ((m == Absent && p == NoSet && c == NoSet) ||
                     (m == Present(Version) && !p.NotZSet? && !c.NotZSet?))
  {
    if m.Present? && m.s != Version then false
    else if m.WrongType? then false
    else if p.NotZSet? then false
    else if c.NotZSet? then false
    else if m.Absent? && p != NoSet then false
    else if m.Absent? && c != NoSet then false
    else true
  }

  /** SETNX key "ick.v1": writes only when the key does not exist. */
  function SetNX(m: Manifest): (r: Manifest)
    ensures r != Absent
    ensures m != Absent ==> r == m
    ensures m == Absent || m == Present(Version) ==> r == Present(Version)
  {
    if m.Absent? then Present(Version) else m
  }

  /** DEL key pset cset: how many of the three keys exist. */
  function ExistingKeys(m: Manifest, p: SetKey, c: SetKey): (n: nat)
    ensures n <= 3
    ensures n == 0 <==> m == Absent && p == NoSet && c == NoSet
  {
    (if m != Absent then 1 else 0) + (if p != NoSet then 1 else 0) + (if c != NoSet then 1 else 0)
  }

  // ---------------------------------------------------------------------
  // Arguments
  // ---------------------------------------------------------------------

  /** A Ruby argument: a Numeric, a String, or anything else. */
  datatype Arg = Numeric(n: Score) | Text(s: string) | Unsupported

  datatype Pair = Pair(score: Score, member: Member)

  /** ARGV alternates score, member, score, member, ... */
  predicate WellTyped(argv: seq<Arg>) {
    forall i :: 0 <= i < |argv| ==> if i % 2 == 0 then argv[i].Numeric? else argv[i].Text?
  }

  /** The (score, member) pairs of an even, well-typed ARGV, in order. */
  function Pairs(argv: seq<Arg>): (ps: seq<Pair>)
    requires |argv| % 2 == 0 && WellTyped(argv)
    ensures |ps| * 2 == |argv|
  {
    if argv == [] then []
    else
      var init := argv[..|argv| - 2];
      assert forall i :: 0 <= i < |init| ==> init[i] == argv[i];
      Pairs(init) + [Pair(argv[|argv| - 2].n, argv[|argv| - 1].s)]
  }

  /** The ARGV a list of pairs is sent as. */
  function Flatten(ps: seq<Pair>): (argv: seq<Arg>)
    ensures |argv| == 2 * |ps|
  {
    if ps == [] then []
    else Flatten(ps[..|ps| - 1]) + [Numeric(ps[|ps| - 1].score), Text(ps[|ps| - 1].member)]
  }

  lemma {:induction false} FlattenWellTyped(ps: seq<Pair>)
    ensures WellTyped(Flatten(ps))
    ensures forall i :: 0 <= i < |ps| ==> Flatten(ps)[2 * i] == Numeric(ps[i].score) &&
                                           Flatten(ps)[2 * i + 1] == Text(ps[i].member)
  {
    if ps != [] {
      var init := ps[..|ps| - 1];
      FlattenWellTyped(init);
      assert forall i :: 0 <= i < |init| ==> init[i] == ps[i];
    }
  }

  /** Sending pairs as ARGV and reading them back gives the same pairs. */
  lemma PairsFlatten(ps: seq<Pair>)
    ensures WellTyped(Flatten(ps)) && Pairs(Flatten(ps)) == ps
  {
    FlattenWellTyped(ps);
  }

  /** Reading an even, well-typed ARGV as pairs and sending them again gives the same ARGV. */
  lemma {:induction false} FlattenPairs(argv: seq<Arg>)
    requires |argv| % 2 == 0 && WellTyped(argv)
    ensures Flatten(Pairs(argv)) == argv
    decreases |argv|
  {
    if argv != [] {
      var init := argv[..|argv| - 2];
      assert forall i :: 0 <= i < |init| ==> init[i] == argv[i];
      FlattenPairs(init);
      var ps := Pairs(argv);
      assert ps[..|ps| - 1] == Pairs(init);
      assert argv[|argv| - 2].Numeric? && argv[|argv| - 1].Text?;
      assert argv == init + [argv[|argv| - 2], argv[|argv| - 1]];
    }
  }

  /**
   * Ruby ickadd's checks: an even number of arguments, each score Numeric
   * and each member a String.
   */
  function ValidateAdd(args: seq<Arg>): (r: Result<seq<Pair>>)
    ensures r.Ok? <==> |args| % 2 == 0 && WellTyped(args)
    ensures r.Ok? ==> Flatten(r.value) == args
    ensures r.Err? ==> r.error == BadArgument
  {
    if |args| % 2 == 1 then Err(BadArgument)
    else if !WellTyped(args) then Err(BadArgument)
    else
      FlattenPairs(args);
      Ok(Pairs(args))
  }

  /** Ruby ickreserve's checks: max_size is an Integer and not negative. */
  function ValidateReserveSize(a: Arg): (r: Result<nat>)
    ensures r.Ok? <==> a.Numeric? && a.n >= 0
    ensures r.Ok? ==> r.value == a.n
  {
    match a
    case Numeric(n) => if n < 0 then Err(BadArgument) else Ok(n)
    case _ => Err(BadArgument)
  }

  // ---------------------------------------------------------------------
  // ickadd
  // ---------------------------------------------------------------------

  /** The producer set and the two counters LUA_ICKADD returns. */
  datatype Tally = Tally(pset: map<Member, Score>, numNew: nat, numChanged: nat)

  /** One iteration of LUA_ICKADD's loop. */
  function AddPair(t: Tally, p: Pair): Tally {
    if p.member !in t.pset then Tally(t.pset[p.member := p.score], t.numNew + 1, t.numChanged)
    else if p.score < t.pset[p.member] then Tally(t.pset[p.member := p.score], t.numNew, t.numChanged + 1)
    else t
  }

  /** LUA_ICKADD's loop over all pairs, first to last. */
  function AddAll(p: map<Member, Score>, pairs: seq<Pair>): Tally {
    if pairs == [] then Tally(p, 0, 0)
    else AddPair(AddAll(p, pairs[..|pairs| - 1]), pairs[|pairs| - 1])
  }

  function MembersOf(pairs: seq<Pair>): set<Member> {
    set i | 0 <= i < |pairs| :: pairs[i].member
  }

  /** Min-score folding never raises a stored score and never drops a member. */
  lemma {:induction false} AddNeverRaises(p: map<Member, Score>, pairs: seq<Pair>)
    ensures forall k :: k in p ==> k in AddAll(p, pairs).pset && AddAll(p, pairs).pset[k] <= p[k]
  {
    if pairs != [] {
      AddNeverRaises(p, pairs[..|pairs| - 1]);
    }
  }

  /** Every added member ends at or below each score it was added with. */
  lemma {:induction false} AddBelowEachPair(p: map<Member, Score>, pairs: seq<Pair>)
    ensures forall i :: 0 <= i < |pairs| ==>
              pairs[i].member in AddAll(p, pairs).pset &&
              AddAll(p, pairs).pset[pairs[i].member] <= pairs[i].score
  {
    if pairs != [] {
      var init := pairs[..|pairs| - 1];
      AddBelowEachPair(p, init);
      var t := AddAll(p, init);
      var u := AddAll(p, pairs);
      assert u == AddPair(t, pairs[|pairs| - 1]);
      assert forall k :: k in t.pset ==> k in u.pset && u.pset[k] <= t.pset[k];
      assert forall i :: 0 <= i < |init| ==> init[i] == pairs[i];
    }
  }

  /** Every resulting score is the member's old score or one it was added with. */
  lemma {:induction false} AddScoresFromInputs(p: map<Member, Score>, pairs: seq<Pair>)
    ensures forall k :: k in AddAll(p, pairs).pset ==>
              (k in p && AddAll(p, pairs).pset[k] == p[k]) ||
              exists i :: 0 <= i < |pairs| && pairs[i] == Pair(AddAll(p, pairs).pset[k], k)
  {
    if pairs != [] {
      var init := pairs[..|pairs| - 1];
      var last := pairs[|pairs| - 1];
      AddScoresFromInputs(p, init);
      var t := AddAll(p, init);
      var u := AddAll(p, pairs);
      assert u == AddPair(t, last);
      forall k | k in u.pset
        ensures (k in p && u.pset[k] == p[k]) ||
                exists i :: 0 <= i < |pairs| && pairs[i] == Pair(u.pset[k], k)
      {
        if k == last.member && u.pset[k] == last.score {
          assert pairs[|pairs| - 1] == Pair(u.pset[k], k);
        } else {
          assert k in t.pset && u.pset[k] == t.pset[k];
          if !(k in p && t.pset[k] == p[k]) {
            var i :| 0 <= i < |init| && init[i] == Pair(t.pset[k], k);
            assert pairs[i] == init[i];
          }
        }
      }
    }
  }

  /** The producer set gains exactly the members of the pairs. */
  lemma {:induction false} AddKeys(p: map<Member, Score>, pairs: seq<Pair>)
    ensures AddAll(p, pairs).pset.Keys == p.Keys + MembersOf(pairs)
  {
    if pairs != [] {
      var init := pairs[..|pairs| - 1];
      var last := pairs[|pairs| - 1];
      AddKeys(p, init);
      assert MembersOf(pairs) == MembersOf(init) + {last.member} by {
        assert forall i :: 0 <= i < |init| ==> init[i] == pairs[i];
      }
    }
  }

  /**
   * num_new counts the members that were not in the producer set before,
   * and each pair adds at most one to num_new + num_changed.
   */
  lemma {:induction false} AddCounts(p: map<Member, Score>, pairs: seq<Pair>)
    ensures AddAll(p, pairs).numNew == |AddAll(p, pairs).pset| - |p|
    ensures AddAll(p, pairs).numNew + AddAll(p, pairs).numChanged <= |pairs|
  {
    if pairs != [] {
      var init := pairs[..|pairs| - 1];
      var last := pairs[|pairs| - 1];
      AddCounts(p, init);
      var t := AddAll(p, init);
      var u := AddAll(p, pairs);
      assert u == AddPair(t, last);
      if last.member !in t.pset {
        assert u.pset.Keys == t.pset.Keys + {last.member};
        assert |u.pset| == |t.pset| + 1;
      } else {
        assert u.pset.Keys == t.pset.Keys;
        assert |u.pset| == |t.pset|;
      }
    }
  }

  // ---------------------------------------------------------------------
  // ickreserve
  // ---------------------------------------------------------------------

  /** The producer and consumer sets of one Ick. */
  datatype Queue = Queue(pset: map<Member, Score>, cset: map<Member, Score>)

  /**
   * LUA_ICKRESERVE's loop: while the consumer set is below target and the
   * producer set is not empty, move the lowest-ranked producer member over,
   * folding its score into the consumer set.
   */
  ghost function Promote(p: map<Member, Score>, c: map<Member, Score>, target: int): Queue
    decreases |p|
  {
    if target <= |c| || p == map[] then Queue(p, c)
    else
      var k := FirstMember(p);
      RemoveOne(p, k);
      Promote(p - {k}, Fold(c, k, p[k]), target)
  }

  /** One step of Promote, spelled out. */
  lemma PromoteStep(p: map<Member, Score>, c: map<Member, Score>, target: int)
    requires |c| < target && p != map[]
    ensures |p - {FirstMember(p)}| < |p|
    ensures Promote(p, c, target) ==
            Promote(p - {FirstMember(p)}, Fold(c, FirstMember(p), p[FirstMember(p)]), target)
  {
    RemoveOne(p, FirstMember(p));
  }

  /**
   * The loop stops with the consumer set at target or the producer set
   * empty; it leaves a consumer set that already reached target alone and
   * never fills one past target.
   */
  lemma {:induction false} PromoteStops(p: map<Member, Score>, c: map<Member, Score>, target: int)
    ensures target <= |Promote(p, c, target).cset| || Promote(p, c, target).pset == map[]
    ensures target <= |c| ==> Promote(p, c, target) == Queue(p, c)
    ensures |c| < target ==> |Promote(p, c, target).cset| <= target
    decreases |p|
  {
    if |c| < target && p != map[] {
      var k := FirstMember(p);
      PromoteStep(p, c, target);
      var c1 := Fold(c, k, p[k]);
      assert |c1| <= |c| + 1 by {
        if k !in c { assert c1.Keys == c.Keys + {k}; } else { assert c1.Keys == c.Keys; }
      }
      PromoteStops(p - {k}, c1, target);
    }
  }

  /** Reserving again with nothing in between changes nothing. */
  lemma PromoteIdempotent(p: map<Member, Score>, c: map<Member, Score>, target: int)
    ensures var q := Promote(p, c, target); Promote(q.pset, q.cset, target) == q
  {
    PromoteStops(p, c, target);
  }

  /** No member is lost: the members of both sets together are unchanged. */
  lemma {:induction false} PromoteKeys(p: map<Member, Score>, c: map<Member, Score>, target: int)
    ensures Promote(p, c, target).pset.Keys + Promote(p, c, target).cset.Keys == p.Keys + c.Keys
    decreases |p|
  {
    if |c| < target && p != map[] {
      var k := FirstMember(p);
      PromoteStep(p, c, target);
      var p1, c1 := p - {k}, Fold(c, k, p[k]);
      PromoteKeys(p1, c1, target);
      assert p1.Keys + c1.Keys == p.Keys + c.Keys;
    }
  }

  /** Every consumer member stays in the consumer set. */
  lemma {:induction false} PromoteKeepsConsumers(p: map<Member, Score>, c: map<Member, Score>, target: int)
    ensures c.Keys <= Promote(p, c, target).cset.Keys
    decreases |p|
  {
    if |c| < target && p != map[] {
      var k := FirstMember(p);
      PromoteStep(p, c, target);
      PromoteKeepsConsumers(p - {k}, Fold(c, k, p[k]), target);
    }
  }

  /** The consumer set gains only members moved out of the producer set. */
  lemma {:induction false} PromoteOnlyMoved(p: map<Member, Score>, c: map<Member, Score>, target: int)
    ensures forall k :: k in Promote(p, c, target).cset ==> k in c || (k in p && k !in Promote(p, c, target).pset)
    decreases |p|
  {
    if |c| < target && p != map[] {
      var k := FirstMember(p);
      PromoteStep(p, c, target);
      var p1, c1 := p - {k}, Fold(c, k, p[k]);
      PromoteOnlyMoved(p1, c1, target);
      PromoteShrinks(p1, c1, target);
    }
  }

  /** What stays in the producer set was there before, with the same score. */
  lemma {:induction false} PromoteShrinks(p: map<Member, Score>, c: map<Member, Score>, target: int)
    ensures forall k :: k in Promote(p, c, target).pset ==> k in p && Promote(p, c, target).pset[k] == p[k]
    decreases |p|
  {
    if |c| < target && p != map[] {
      var k := FirstMember(p);
      PromoteStep(p, c, target);
      PromoteShrinks(p - {k}, Fold(c, k, p[k]), target);
    }
  }

  /** A moved member ends in the consumer set with the lower of its two scores. */
  lemma {:induction false} PromoteMovedScores(p: map<Member, Score>, c: map<Member, Score>, target: int)
    ensures forall k :: k in p && k !in Promote(p, c, target).pset ==>
              k in Promote(p, c, target).cset &&
              Promote(p, c, target).cset[k] == if k in c then Min(c[k], p[k]) else p[k]
    decreases |p|
  {
    if |c| < target && p != map[] {
      var k := FirstMember(p);
      PromoteStep(p, c, target);
      var p1, c1 := p - {k}, Fold(c, k, p[k]);
      PromoteMovedScores(p1, c1, target);
      PromoteShrinks(p1, c1, target);
      var q := Promote(p1, c1, target);
      assert Promote(p, c, target) == q;
      forall x | x in p && x !in q.pset
        ensures x in q.cset && q.cset[x] == if x in c then Min(c[x], p[x]) else p[x]
      {
        if x == k {
          PromoteKeptScores(p1, c1, target);
          assert x in c1 && x !in p1;
          assert c1[x] == if x in c then Min(c[x], p[x]) else p[x];
        } else {
          assert x in p1 && p1[x] == p[x] && (x in c1 <==> x in c);
          assert x in c ==> c1[x] == c[x];
        }
      }
    }
  }

  /** A consumer member that was not moved over keeps its consumer score. */
  lemma {:induction false} PromoteKeptScores(p: map<Member, Score>, c: map<Member, Score>, target: int)
    ensures forall k :: k in c && !(k in p && k !in Promote(p, c, target).pset) ==>
              k in Promote(p, c, target).cset && Promote(p, c, target).cset[k] == c[k]
    decreases |p|
  {
    PromoteShrinks(p, c, target);
    if |c| < target && p != map[] {
      var k := FirstMember(p);
      PromoteStep(p, c, target);
      var p1, c1 := p - {k}, Fold(c, k, p[k]);
      PromoteKeptScores(p1, c1, target);
      PromoteShrinks(p1, c1, target);
      var q := Promote(p1, c1, target);
      assert Promote(p, c, target) == q;
      assert k !in q.pset;
      forall x | x in c && !(x in p && x !in q.pset)
        ensures x in q.cset && q.cset[x] == c[x]
      {
        assert x != k && x in c1 && c1[x] == c[x];
      }
    }
  }

  /** The members moved over are the lowest-ranked ones of the producer set. */
  lemma {:induction false} PromoteTakesLowest(p: map<Member, Score>, c: map<Member, Score>, target: int)
    ensures var q := Promote(p, c, target);
            forall k, j :: k in p && k !in q.pset && j in q.pset ==> j in p && Precedes(At(p, k), At(p, j))
    decreases |p|
  {
    PromoteShrinks(p, c, target);
    if |c| < target && p != map[] {
      var k := FirstMember(p);
      PromoteStep(p, c, target);
      var p1, c1 := p - {k}, Fold(c, k, p[k]);
      PromoteTakesLowest(p1, c1, target);
      PromoteShrinks(p1, c1, target);
      var q := Promote(p, c, target);
      forall x, j | x in p && x !in q.pset && j in q.pset
        ensures j in p && Precedes(At(p, x), At(p, j))
      {
        assert j in p1 && At(p1, j) == At(p, j);
        if x != k {
          assert x in p1 && At(p1, x) == At(p, x);
        }
      }
    }
  }

  /** What LUA_ICKRESERVE returns: [] for target <= 0, else ZRANGE cset 0 (target-1). */
  ghost function ReserveReply(c: map<Member, Score>, target: int): seq<Entry> {
    RankedLength(c);
    if target <= 0 then [] else Ranked(c)[..Min(target, |c|)]
  }

  /**
   * The reply lists min(target, |cset|) consumer-set entries with their
   * scores, in ascending ZRANGE order, and no unlisted member ranks before
   * a listed one; a target of 0 or less gives [] whatever the set holds.
   */
  lemma ReserveReplyLowest(c: map<Member, Score>, target: int)
    ensures var r := ReserveReply(c, target);
            && |r| == (if target <= 0 then 0 else Min(target, |c|))
            && (forall i :: 0 <= i < |r| ==> r[i].member in c && r[i] == At(c, r[i].member))
            && (forall i, j :: 0 <= i < j < |r| ==> Precedes(r[i], r[j]))
            && (forall i, k :: 0 <= i < |r| && k in c && (forall j :: 0 <= j < |r| ==> r[j].member != k)
                  ==> Precedes(r[i], At(c, k)))
  {
    RankedListsSet(c);
    var r := ReserveReply(c, target);
    var all := Ranked(c);
    assert forall i :: 0 <= i < |r| ==> r[i] == all[i];
    forall i, k | 0 <= i < |r| && k in c && (forall j :: 0 <= j < |r| ==> r[j].member != k)
      ensures Precedes(r[i], At(c, k))
    {
      var n :| 0 <= n < |all| && all[n].member == k;
      assert all[n] == At(c, k);
      assert n >= |r|;
    }
  }

  // ---------------------------------------------------------------------
  // ickexchange
  // ---------------------------------------------------------------------

  /** The set of members named to ickcommit. */
  function Named(members: seq<Member>): set<Member> {
    set i | 0 <= i < |members| :: members[i]
  }

  /** ZRANGE of a two-member set whose scores differ. */
  lemma RankedPair(x: Member, sx: Score, y: Member, sy: Score)
    requires x != y && sx < sy
    ensures Ranked(map[x := sx, y := sy]) == [Entry(x, sx), Entry(y, sy)]
  {
    var m := map[x := sx, y := sy];
    assert IsFirst(m, x);
    FirstUnique(m, x, FirstMember(m));
    RankedStep(m);
    var rest := map[y := sy];
    assert m - {x} == rest;
    RankedStep(rest);
    assert rest - {y} == map[];
  }

  /** One step of Promote when the lowest-ranked producer member is known. */
  lemma PromoteLowest(p: map<Member, Score>, c: map<Member, Score>, target: int, k: Member)
    requires IsFirst(p, k) && |c| < target
    ensures Promote(p, c, target) == Promote(p - {k}, Fold(c, k, p[k]), target)
  {
    FirstUnique(p, k, FirstMember(p));
    PromoteStep(p, c, target);
  }

  /**
   * ick_test.rb's ickexchange scenario: with a, b reserved at 7 and 8 and
   * the producer set holding a at 70, b at 80, c at 9, committing a and b
   * before reserving two hands out c and a.
   */
  lemma CommitBeforeReserve()
    ensures ReserveReply(Promote(map["a" := 70, "b" := 80, "c" := 9],
                                 map["a" := 7, "b" := 8] - Named(["a", "b"]), 2).cset, 2)
            == [Entry("c", 9), Entry("a", 70)]
  {
    assert map["a" := 7, "b" := 8] - Named(["a", "b"]) == map[] by {
      assert Named(["a", "b"]) == {"a", "b"} by {
        assert ["a", "b"][0] == "a" && ["a", "b"][1] == "b";
      }
    }
    ExchangePromotes("a", "b", "c", 70, 80, 9);
    RankedPair("c", 9, "a", 70);
  }

  /**
   * The same scenario with the order reversed: the reserve finds the
   * consumer set full, moves nothing and hands a and b out again; the
   * commit then empties the consumer set, so the reply read after both
   * is [] instead of c and a.
   */
  lemma ReserveBeforeCommit()
    ensures Promote(map["a" := 70, "b" := 80, "c" := 9], map["a" := 7, "b" := 8], 2)
            == Queue(map["a" := 70, "b" := 80, "c" := 9], map["a" := 7, "b" := 8])
    ensures ReserveReply(Promote(map["a" := 70, "b" := 80, "c" := 9], map["a" := 7, "b" := 8], 2).cset, 2)
            == [Entry("a", 7), Entry("b", 8)]
    ensures ReserveReply(Promote(map["a" := 70, "b" := 80, "c" := 9], map["a" := 7, "b" := 8], 2).cset
                         - Named(["a", "b"]), 2) == []
  {
    var c := map["a" := 7, "b" := 8];
    assert |c| == 2 by { assert c.Keys == {"a", "b"}; }
    RankedPair("a", 7, "b", 8);
    assert Named(["a", "b"]) == {"a", "b"} by {
      assert ["a", "b"][0] == "a" && ["a", "b"][1] == "b";
    }
    assert c - Named(["a", "b"]) == map[];
    RankedLength(map[]);
  }

  /**
   * Reserving two from an empty consumer set whose producer set holds x
   * below a below b moves x, then a.
   */
  lemma ExchangePromotes(a: Member, b: Member, x: Member, sa: Score, sb: Score, sx: Score)
    requires a != b && a != x && b != x && sx < sa < sb
    ensures Promote(map[a := sa, b := sb, x := sx], map[], 2) == Queue(map[b := sb], map[x := sx, a := sa])
  {
    ExchangeMovesLowest(a, b, x, sa, sb, sx);
    ExchangeMovesNext(a, b, x, sa, sb, sx);
  }

  lemma ExchangeMovesLowest(a: Member, b: Member, x: Member, sa: Score, sb: Score, sx: Score)
    requires a != b && a != x && b != x && sx < sa < sb
    ensures Promote(map[a := sa, b := sb, x := sx], map[], 2) == Promote(map[a := sa, b := sb], map[x := sx], 2)
  {
    var p := map[a := sa, b := sb, x := sx];
    assert IsFirst(p, x) by {
      assert p.Keys == {a, b, x};
      assert At(p, x) == Entry(x, sx) && At(p, a) == Entry(a, sa) && At(p, b) == Entry(b, sb);
    }
    assert p - {x} == map[a := sa, b := sb];
    assert p[x] == sx && Fold(map[], x, sx) == map[x := sx];
    PromoteLowest(p, map[], 2, x);
  }

  lemma ExchangeMovesNext(a: Member, b: Member, x: Member, sa: Score, sb: Score, sx: Score)
    requires a != b && a != x && b != x && sx < sa < sb
    ensures Promote(map[a := sa, b := sb], map[x := sx], 2) == Queue(map[b := sb], map[x := sx, a := sa])
  {
    var p1 := map[a := sa, b := sb];
    var c2 := map[x := sx, a := sa];
    assert IsFirst(p1, a);
    assert p1 - {a} == map[b := sb];
    assert p1[a] == sa && Fold(map[x := sx], a, sa) == c2;
    PromoteLowest(p1, map[x := sx], 2, a);
    assert |c2| == 2 by { assert c2.Keys == {x, a}; }
  }
}
