/**
 * One Ick as it lives in Redis: the manifest at the Ick's key and the two
 * sorted sets at the derived keys, updated in place by the Lua scripts
 * LUA_ICKADD, LUA_ICKRESERVE, LUA_ICKCOMMIT, LUA_ICKDEL and read by
 * LUA_ICKSTATS, each of which runs LUA_ICK_PREFIX's guard first; plus the
 * Ruby methods that validate arguments before calling them.
 */
module IckStore {

  import opened Wrappers
  import opened SortedSet
  import opened StatsReply
  import opened IckSpec

  /** The smallest score held by either set. */
  ghost function LeastOfBoth(p: map<Member, Score>, c: map<Member, Score>): (s: Score)
    requires p != map[] || c != map[]
    ensures IsLeast(s, p.Values + c.Values)
  {
    if p == map[] then
      LeastScoreIsLeast(c);
      assert p.Values + c.Values == c.Values;
      LeastScore(c)
    else if c == map[] then
      LeastScoreIsLeast(p);
      assert p.Values + c.Values == p.Values;
      LeastScore(p)
    else
      LeastScoreIsLeast(p);
      LeastScoreIsLeast(c);
      Min(LeastScore(c), LeastScore(p))
  }

  /** The largest score held by either set. */
  ghost function GreatestOfBoth(p: map<Member, Score>, c: map<Member, Score>): (s: Score)
    requires p != map[] || c != map[]
    ensures IsGreatest(s, p.Values + c.Values)
  {
    if p == map[] then
      GreatestScoreIsGreatest(c);
      assert p.Values + c.Values == c.Values;
      GreatestScore(c)
    else if c == map[] then
      GreatestScoreIsGreatest(p);
      assert p.Values + c.Values == p.Values;
      GreatestScore(p)
    else
      GreatestScoreIsGreatest(p);
      GreatestScoreIsGreatest(c);
      Max(GreatestScore(c), GreatestScore(p))
  }

  /** The value LUA_ICKSTATS reports for a name, or None when it leaves the name out. */
  ghost function Expected(key: string, p: map<Member, Score>, c: map<Member, Score>, name: string): Option<StatValue> {
    if name == "key" then Some(Str(key))
    else if name == "ver" then Some(Str(Version))
    else if name == "cset_size" then Some(Int(|c|))
    else if name == "pset_size" then Some(Int(|p|))
    else if name == "total_size" then Some(Int(|c| + |p|))
    else if name == "pset_min" then (if p == map[] then None else Some(Str(Decimal(LeastScore(p)))))
    else if name == "pset_max" then (if p == map[] then None else Some(Str(Decimal(GreatestScore(p)))))
    else if name == "cset_min" then (if c == map[] then None else Some(Str(Decimal(LeastScore(c)))))
    else if name == "cset_max" then (if c == map[] then None else Some(Str(Decimal(GreatestScore(c)))))
    else if name == "total_min" then (if p == map[] && c == map[] then None else Some(Str(Decimal(LeastOfBoth(p, c)))))
    else if name == "total_max" then (if p == map[] && c == map[] then None else Some(Str(Decimal(GreatestOfBoth(p, c)))))
    else None
  }

  /** The reply carries every statistic of the Ick and nothing else. */
  ghost predicate Reports(fields: seq<Field>, key: string, p: map<Member, Score>, c: map<Member, Score>) {
    forall name :: Lookup(fields, name) == Expected(key, p, c, name)
  }

  /** The fixed head of the reply: key, manifest and the three sizes. */
  function Head(key: string, p: map<Member, Score>, c: map<Member, Score>): seq<Field> {
    [Field("key", Str(key)), Field("ver", Str(Version)),
     Field("cset_size", Int(|c|)), Field("pset_size", Int(|p|)),
     Field("total_size", Int(|c| + |p|))]
  }

  /** The smallest and largest score of one set, under the given names, when it is not empty. */
  ghost function Extremes(m: map<Member, Score>, minName: string, maxName: string): seq<Field> {
    if m == map[] then []
    else [Field(minName, Str(Decimal(LeastScore(m)))), Field(maxName, Str(Decimal(GreatestScore(m))))]
  }

  /** One statistic over both sets, when either is not empty. */
  ghost function Overall(p: map<Member, Score>, c: map<Member, Score>, name: string, least: bool): seq<Field> {
    if p == map[] && c == map[] then []
    else [Field(name, Str(Decimal(if least then LeastOfBoth(p, c) else GreatestOfBoth(p, c))))]
  }

  /** The five names of the head are five different names. */
  lemma HeadNamesDistinct()
    ensures "key" != "ver"
    ensures "cset_size" != "pset_size"
  {
    assert "key"[0] != "ver"[0];
    assert "cset_size"[0] != "pset_size"[0];
  }

  lemma LookupHead(key: string, p: map<Member, Score>, c: map<Member, Score>, name: string)
    ensures Lookup(Head(key, p, c), name) ==
            if name == "key" then Some(Str(key))
            else if name == "ver" then Some(Str(Version))
            else if name == "cset_size" then Some(Int(|c|))
            else if name == "pset_size" then Some(Int(|p|))
            else if name == "total_size" then Some(Int(|c| + |p|))
            else None
  {
    var h := Head(key, p, c);
    HeadNamesDistinct();
    assert h[..0] == [];
    assert h[..1] == h[..0] + [h[0]];
    assert h[..2] == h[..1] + [h[1]];
    assert h[..3] == h[..2] + [h[2]];
    assert h[..4] == h[..3] + [h[3]];
    assert h == h[..4] + [h[4]];
    LookupAppend(h[..0], h[0], name);
    LookupAppend(h[..1], h[1], name);
    LookupAppend(h[..2], h[2], name);
    LookupAppend(h[..3], h[3], name);
    LookupAppend(h[..4], h[4], name);
  }

  lemma LookupExtremes(key: string, p: map<Member, Score>, c: map<Member, Score>, name: string)
    ensures Lookup(Extremes(p, "pset_min", "pset_max"), name) ==
            if name in {"pset_min", "pset_max"} then Expected(key, p, c, name) else None
    ensures Lookup(Extremes(c, "cset_min", "cset_max"), name) ==
            if name in {"cset_min", "cset_max"} then Expected(key, p, c, name) else None
  {
  }

  lemma LookupTotalMin(key: string, p: map<Member, Score>, c: map<Member, Score>, name: string)
    ensures Lookup(Overall(p, c, "total_min", true), name) ==
            if name == "total_min" then Expected(key, p, c, name) else None
  {
    if name == "total_min" {
      assert Expected(key, p, c, name) ==
             if p == map[] && c == map[] then None else Some(Str(Decimal(LeastOfBoth(p, c))));
    }
  }

  lemma LookupTotalMax(key: string, p: map<Member, Score>, c: map<Member, Score>, name: string)
    ensures Lookup(Overall(p, c, "total_max", false), name) ==
            if name == "total_max" then Expected(key, p, c, name) else None
  {
    if name == "total_max" {
      assert Expected(key, p, c, name) ==
             if p == map[] && c == map[] then None else Some(Str(Decimal(GreatestOfBoth(p, c))));
    }
  }

  /** The reply LUA_ICKSTATS builds, read back by name, carries every statistic. */
  lemma HeadExtremesReport(key: string, p: map<Member, Score>, c: map<Member, Score>)
    ensures var fields := Head(key, p, c) + Extremes(p, "pset_min", "pset_max") + Extremes(c, "cset_min", "cset_max")
                          + Overall(p, c, "total_min", true) + Overall(p, c, "total_max", false);
            Reports(fields, key, p, c)
  {
    var head := Head(key, p, c);
    var ps := Extremes(p, "pset_min", "pset_max");
    var cs := Extremes(c, "cset_min", "cset_max");
    var tmin := Overall(p, c, "total_min", true);
    var tmax := Overall(p, c, "total_max", false);
    var fields := head + ps + cs + tmin + tmax;
    forall name
      ensures Lookup(fields, name) == Expected(key, p, c, name)
    {
      LookupConcat(head + ps + cs + tmin, tmax, name);
      LookupConcat(head + ps + cs, tmin, name);
      LookupConcat(head + ps, cs, name);
      LookupConcat(head, ps, name);
      LookupHead(key, p, c, name);
      LookupExtremes(key, p, c, name);
      LookupTotalMin(key, p, c, name);
      LookupTotalMax(key, p, c, name);
    }
  }

  /** None of the head's names ends in "_min" or "_max". */
  lemma HeadIsNotExtreme(key: string, p: map<Member, Score>, c: map<Member, Score>)
    ensures ExtremesAreText(Head(key, p, c))
  {
    assert !IsExtremeName("key") && !IsExtremeName("ver");
    assert "cset_size"[5..] == "size" && "pset_size"[5..] == "size" && "total_size"[6..] == "size";
  }

  /** Every "_min"/"_max" value of the reply is text, as the post-processor expects. */
  lemma ReplyExtremesAreText(key: string, p: map<Member, Score>, c: map<Member, Score>)
    ensures ExtremesAreText(Head(key, p, c) + Extremes(p, "pset_min", "pset_max") + Extremes(c, "cset_min", "cset_max")
                            + Overall(p, c, "total_min", true) + Overall(p, c, "total_max", false))
  {
    var head := Head(key, p, c);
    HeadIsNotExtreme(key, p, c);
    var ps := Extremes(p, "pset_min", "pset_max");
    var cs := Extremes(c, "cset_min", "cset_max");
    var tmin := Overall(p, c, "total_min", true);
    var tmax := Overall(p, c, "total_max", false);
    TextConcat(head, ps);
    TextConcat(head + ps, cs);
    TextConcat(head + ps + cs, tmin);
    TextConcat(head + ps + cs + tmin, tmax);
  }

  class Store {
    /** The Ick's own key, where the manifest lives. */
    const key: string
    /** GET/TYPE at key. */
    var manifest: Manifest
    /** The producer set, at PsetKey(key). */
    var pset: SetKey
    /** The consumer set, at CsetKey(key). */
    var cset: SetKey

    /** Redis never holds an empty sorted set. */
    ghost predicate Valid()
      reads this
    {
      Normal(pset) && Normal(cset)
    }

    ghost predicate Passes()
      reads this
    {
      Guard(manifest, pset, cset)
    }

    /** Whatever Redis holds at the three keys, including corrupt data. */
    constructor(key: string, manifest: Manifest, pset: SetKey, cset: SetKey)
      requires Normal(pset) && Normal(cset)
      ensures Valid()
      ensures this.key == key && this.manifest == manifest && this.pset == pset && this.cset == cset
    {
      this.key := key;
      this.manifest := manifest;
      this.pset := pset;
      this.cset := cset;
    }

    /**
     * LUA_ICKADD: after the guard, an odd ARGV is refused; otherwise each
     * (score, member) is folded into the producer set keeping the lower
     * score, the manifest is created if missing, and the counts of new
     * members and lowered scores are returned.
     */
    method Add(argv: seq<Arg>) returns (r: Result<(nat, nat)>)
      requires Valid() && WellTyped(argv)
      modifies this
      ensures Valid()
      ensures !old(Passes()) ==> r == Err(Corrupt) && unchanged(this)
      ensures old(Passes()) && |argv| % 2 == 1 ==> r == Err(OddArguments) && unchanged(this)
      ensures old(Passes()) && |argv| % 2 == 0 ==>
                var t := AddAll(Members(old(pset)), Pairs(argv));
                && r == Ok((t.numNew, t.numChanged))
                && manifest == Present(Version) && pset == Stored(t.pset) && cset == old(cset)
                && Passes()
    {
      if !Guard(manifest, pset, cset) {
        return Err(Corrupt);
      }
      if |argv| % 2 == 1 {
        return Err(OddArguments);
      }
      var pairs := Pairs(argv);
      ghost var p0 := Members(pset);
      var numNew, numChanged := 0, 0;
      for i := 0 to |pairs|
        invariant Valid() && !pset.NotZSet? && cset == old(cset) && manifest == old(manifest)
        invariant AddAll(p0, pairs[..i]) == Tally(Members(pset), numNew, numChanged)
        invariant pset == Stored(Members(pset))
      {
        assert pairs[..i + 1][..i] == pairs[..i];
        var score, member := pairs[i].score, pairs[i].member;
        var oldScore := ZScore(pset, member);
        if oldScore.None? {
          pset := ZSet(Members(pset)[member := score]);
          numNew := numNew + 1;
        } else if score < oldScore.value {
          pset := ZSet(Members(pset)[member := score]);
          numChanged := numChanged + 1;
        }
      }
      assert pairs[..|pairs|] == pairs;
      manifest := SetNX(manifest);
      r := Ok((numNew, numChanged));
    }

    /**
     * LUA_ICKRESERVE: after the guard, move the lowest-ranked producer
     * member into the consumer set (folding to the lower score) until the
     * consumer set reaches target or the producer set is empty, create the
     * manifest if missing, and reply with the first target consumer
     * entries in ZRANGE order ([] when target <= 0).
     */
    method Reserve(target: int) returns (r: Result<seq<Entry>>)
      requires Valid()
      modifies this
      ensures Valid()
      ensures !old(Passes()) ==> r == Err(Corrupt) && unchanged(this)
      ensures old(Passes()) ==>
                var q := Promote(Members(old(pset)), Members(old(cset)), target);
                && r == Ok(ReserveReply(q.cset, target))
                && manifest == Present(Version) && pset == Stored(q.pset) && cset == Stored(q.cset)
                && Passes()
    {
      if !Guard(manifest, pset, cset) {
        return Err(Corrupt);
      }
      ghost var q := Promote(Members(pset), Members(cset), target);
      while true
        invariant Valid() && !pset.NotZSet? && !cset.NotZSet? && manifest == old(manifest)
        invariant Promote(Members(pset), Members(cset), target) == q
        decreases |Members(pset)|
      {
        var csetSize := |Members(cset)|;
        if target <= csetSize {
          break;
        }
        if Members(pset) == map[] {
          break;
        }
        var first := Lowest(Members(pset));
        RankedStep(Members(pset));
        PromoteStep(Members(pset), Members(cset), target);
        pset := Stored(Members(pset) - {first.member});
        var oldScore := ZScore(cset, first.member);
        if oldScore.None? || first.score < oldScore.value {
          cset := ZSet(Members(cset)[first.member := first.score]);
        }
      }
      manifest := SetNX(manifest);
      if target <= 0 {
        r := Ok([]);
      } else {
        var reply := RangeHead(Members(cset), target);
        r := Ok(reply);
      }
    }

    /**
     * LUA_ICKCOMMIT: after the guard, create the manifest if missing and
     * remove each named member from the consumer set, replying with how
     * many were there; the producer set is not touched.
     */
    method Commit(members: seq<Member>) returns (r: Result<nat>)
      requires Valid()
      modifies this
      ensures Valid()
      ensures !old(Passes()) ==> r == Err(Corrupt) && unchanged(this)
      ensures old(Passes()) ==>
                && r == Ok(|Members(old(cset)).Keys * Named(members)|)
                && manifest == Present(Version) && pset == old(pset)
                && cset == Stored(Members(old(cset)) - Named(members))
                && Passes()
    {
      if !Guard(manifest, pset, cset) {
        return Err(Corrupt);
      }
      manifest := SetNX(manifest);
      if |members| == 0 {
        assert Named(members) == {};
        StoredMembers(cset);
        return Ok(0);
      }
      var numRemoved := RemoveEach(members);
      StoredMembers(cset);
      r := Ok(numRemoved);
    }

    /** LUA_ICKCOMMIT's loop: ZREM each named member, adding up the replies. */
    method RemoveEach(members: seq<Member>) returns (numRemoved: nat)
      requires Valid() && !cset.NotZSet?
      modifies this
      ensures Valid() && !cset.NotZSet? && manifest == old(manifest) && pset == old(pset)
      ensures Members(cset) == Members(old(cset)) - Named(members)
      ensures numRemoved == |Members(old(cset)).Keys * Named(members)|
    {
      ghost var c0 := Members(cset);
      ghost var named: set<Member> := {};
      assert members[..0] == [];
      numRemoved := 0;
      for i := 0 to |members|
        invariant Valid() && !cset.NotZSet? && manifest == old(manifest) && pset == old(pset)
        invariant named == Named(members[..i])
        invariant Members(cset) == c0 - named
        invariant numRemoved == |c0.Keys * named|
      {
        var v := members[i];
        NamedStep(members, i);
        RemoveStep(c0, named, v);
        if v in Members(cset) {
          cset := Stored(Members(cset) - {v});
          numRemoved := numRemoved + 1;
        }
        named := named + {v};
      }
      assert members[..|members|] == members;
    }

    /**
     * LUA_ICKDEL: after the guard, delete all three keys and reply with how
     * many existed (0 exactly when there was no Ick).
     */
    method Del() returns (r: Result<nat>)
      requires Valid()
      modifies this
      ensures Valid()
      ensures !old(Passes()) ==> r == Err(Corrupt) && unchanged(this)
      ensures old(Passes()) ==>
                && r == Ok(ExistingKeys(old(manifest), old(pset), old(cset)))
                && manifest == Absent && pset == NoSet && cset == NoSet
                && Passes()
    {
      if !Guard(manifest, pset, cset) {
        return Err(Corrupt);
      }
      var n := ExistingKeys(manifest, pset, cset);
      manifest, pset, cset := Absent, NoSet, NoSet;
      r := Ok(n);
    }

    /**
     * LUA_ICKSTATS: after the guard, nil when there is no manifest;
     * otherwise the flat name/value list with the key, the manifest, the
     * three sizes and, for each non-empty set and for both together, the
     * smallest and largest score as decimal text.
     */
    method Stats() returns (r: Result<Option<seq<Field>>>)
      requires Valid()
      ensures !Passes() ==> r == Err(Corrupt)
      ensures Passes() && manifest == Absent ==> r == Ok(None)
      ensures Passes() && manifest != Absent ==>
                && r.Ok? && r.value.Some?
                && ExtremesAreText(r.value.value)
                && Reports(r.value.value, key, Members(pset), Members(cset))
    {
      if !Guard(manifest, pset, cset) {
        return Err(Corrupt);
      }
      if manifest.Absent? {
        return Ok(None);
      }
      var p, c := Members(pset), Members(cset);
      var stats := [Field("key", Str(key)), Field("ver", Str(manifest.s)),
                    Field("cset_size", Int(|c|)), Field("pset_size", Int(|p|)),
                    Field("total_size", Int(|c| + |p|))];
      assert stats == Head(key, p, c);
      var psetMin, psetMax: Option<Score> := None, None;
      if |p| > 0 {
        var lo := Lowest(p);
        psetMin := Some(lo.score);
        stats := stats + [Field("pset_min", Str(Decimal(lo.score)))];
        var hi := Highest(p);
        psetMax := Some(hi.score);
        stats := stats + [Field("pset_max", Str(Decimal(hi.score)))];
      }
      assert stats == Head(key, p, c) + Extremes(p, "pset_min", "pset_max");
      var csetMin, csetMax: Option<Score> := None, None;
      if |c| > 0 {
        var lo := Lowest(c);
        csetMin := Some(lo.score);
        stats := stats + [Field("cset_min", Str(Decimal(lo.score)))];
        var hi := Highest(c);
        csetMax := Some(hi.score);
        stats := stats + [Field("cset_max", Str(Decimal(hi.score)))];
      }
      assert stats == Head(key, p, c) + Extremes(p, "pset_min", "pset_max") + Extremes(c, "cset_min", "cset_max");
      var totalMin: Option<Score> := None;
      if psetMin.Some? && csetMin.Some? {
        totalMin := Some(Min(csetMin.value, psetMin.value));
      } else if psetMin.Some? {
        totalMin := psetMin;
      } else if csetMin.Some? {
        totalMin := csetMin;
      }
      if totalMin.Some? {
        stats := stats + [Field("total_min", Str(Decimal(totalMin.value)))];
      }
      assert stats == Head(key, p, c) + Extremes(p, "pset_min", "pset_max") + Extremes(c, "cset_min", "cset_max")
                      + Overall(p, c, "total_min", true);
      var totalMax: Option<Score> := None;
      if psetMax.Some? && csetMax.Some? {
        totalMax := Some(Max(csetMax.value, psetMax.value));
      } else if psetMax.Some? {
        totalMax := psetMax;
      } else if csetMax.Some? {
        totalMax := csetMax;
      }
      if totalMax.Some? {
        stats := stats + [Field("total_max", Str(Decimal(totalMax.value)))];
      }
      HeadExtremesReport(key, p, c);
      ReplyExtremesAreText(key, p, c);
      r := Ok(Some(stats));
    }

    /**
     * ickexchange as ick_test.rb pins it down: commit the named members out
     * of the consumer set first, then reserve up to target.
     */
    method Exchange(target: int, members: seq<Member>) returns (r: Result<seq<Entry>>)
      requires Valid()
      modifies this
      ensures Valid()
      ensures !old(Passes()) ==> r == Err(Corrupt) && unchanged(this)
      ensures old(Passes()) ==>
                var q := Promote(Members(old(pset)), Members(old(cset)) - Named(members), target);
                && r == Ok(ReserveReply(q.cset, target))
                && manifest == Present(Version) && pset == Stored(q.pset) && cset == Stored(q.cset)
                && Passes()
    {
      var committed := Commit(members);
      if committed.Err? {
        return Err(committed.error);
      }
      r := Reserve(target);
    }

    /**
     * Ruby ickadd: refuse an odd number of arguments, a non-Numeric score
     * or a non-String member before running LUA_ICKADD.
     */
    method IckAdd(args: seq<Arg>) returns (r: Result<(nat, nat)>)
      requires Valid()
      modifies this
      ensures Valid()
      ensures ValidateAdd(args).Err? ==> r == Err(BadArgument) && unchanged(this)
      ensures ValidateAdd(args).Ok? && !old(Passes()) ==> r == Err(Corrupt) && unchanged(this)
      ensures ValidateAdd(args).Ok? && old(Passes()) ==>
                var t := AddAll(Members(old(pset)), ValidateAdd(args).value);
                && r == Ok((t.numNew, t.numChanged))
                && manifest == Present(Version) && pset == Stored(t.pset) && cset == old(cset)
    {
      var pairs := ValidateAdd(args);
      if pairs.Err? {
        return Err(pairs.error);
      }
      r := Add(args);
    }

    /**
     * Ruby ickreserve: refuse a max_size that is not an Integer or is
     * negative before running LUA_ICKRESERVE; max_size defaults to 0.
     */
    method IckReserve(maxSize: Arg := Numeric(0)) returns (r: Result<seq<Entry>>)
      requires Valid()
      modifies this
      ensures Valid()
      ensures ValidateReserveSize(maxSize).Err? ==> r == Err(BadArgument) && unchanged(this)
      ensures ValidateReserveSize(maxSize).Ok? && !old(Passes()) ==> r == Err(Corrupt) && unchanged(this)
      ensures ValidateReserveSize(maxSize).Ok? && old(Passes()) ==>
                var q := Promote(Members(old(pset)), Members(old(cset)), maxSize.n);
                && r == Ok(ReserveReply(q.cset, maxSize.n))
                && manifest == Present(Version) && pset == Stored(q.pset) && cset == Stored(q.cset)
    {
      var size := ValidateReserveSize(maxSize);
      if size.Err? {
        return Err(size.error);
      }
      r := Reserve(size.value);
    }

    /**
     * Ruby ickstats: LUA_ICKSTATS's reply turned into a hash, with every
     * "_min"/"_max" score that is all digits read back as an integer.
     */
    method IckStats() returns (r: Result<Option<map<string, StatValue>>>)
      requires Valid()
      ensures !Passes() ==> r == Err(Corrupt)
      ensures Passes() && manifest == Absent ==> r == Ok(None)
      ensures Passes() && manifest != Absent ==>
                && r.Ok? && r.value.Some?
                && (forall name :: name in r.value.value <==> Expected(key, Members(pset), Members(cset), name).Some?)
                && (forall name :: name in r.value.value && !IsExtremeName(name) ==>
                      r.value.value[name] == Expected(key, Members(pset), Members(cset), name).value)
                && (forall name :: name in r.value.value && IsExtremeName(name) ==>
                      exists s :: Expected(key, Members(pset), Members(cset), name).value == Str(Decimal(s)) &&
                                  r.value.value[name] == if s >= 0 then Int(s) else Float(Decimal(s)))
    {
      var raw := Stats();
      if raw.Err? {
        return Err(raw.error);
      }
      var stats := Postprocess(raw.value);
      r := Ok(stats);
      if raw.value.Some? {
        var p, c := Members(pset), Members(cset);
        forall name | name in stats.value && IsExtremeName(name)
          ensures exists s :: Expected(key, p, c, name).value == Str(Decimal(s)) &&
                              stats.value[name] == if s >= 0 then Int(s) else Float(Decimal(s))
        {
          var s := ExtremeScore(key, p, c, name);
          ReportedScore(s);
        }
      }
    }
  }

  /** Each "_min"/"_max" statistic is the decimal text of a score. */
  ghost function ExtremeScore(key: string, p: map<Member, Score>, c: map<Member, Score>, name: string): (s: Score)
    requires IsExtremeName(name) && Expected(key, p, c, name).Some?
    ensures Expected(key, p, c, name) == Some(Str(Decimal(s)))
  {
    if name == "pset_min" then LeastScore(p)
    else if name == "pset_max" then GreatestScore(p)
    else if name == "cset_min" then LeastScore(c)
    else if name == "cset_max" then GreatestScore(c)
    else if name == "total_min" then LeastOfBoth(p, c)
    else if name == "total_max" then GreatestOfBoth(p, c)
    else
      assert false;
      0
  }

  /** ZREM of one more named member from what is left of the consumer set. */
  lemma RemoveStep(c0: map<Member, Score>, named: set<Member>, v: Member)
    ensures c0 - (named + {v}) == (c0 - named) - {v}
    ensures v !in c0 - named ==> c0 - (named + {v}) == c0 - named
    ensures |c0.Keys * (named + {v})| == |c0.Keys * named| + (if v in c0 - named then 1 else 0)
  {
    CountStep(c0.Keys, named, v);
    assert c0 - (named + {v}) == (c0 - named) - {v};
  }

  /** Naming one more member adds it to the named set. */
  lemma NamedStep(members: seq<Member>, i: nat)
    requires i < |members|
    ensures Named(members[..i + 1]) == Named(members[..i]) + {members[i]}
  {
    var a, b := members[..i + 1], members[..i];
    assert forall j :: 0 <= j < |b| ==> a[j] == b[j];
    assert a[i] == members[i];
  }

  /** ZREM's reply: naming v again or naming a non-member removes nothing. */
  lemma CountStep(keys: set<Member>, named: set<Member>, v: Member)
    ensures |keys * (named + {v})| == |keys * named| + (if v in keys && v !in named then 1 else 0)
  {
    if v in keys && v !in named {
      assert keys * (named + {v}) == (keys * named) + {v};
    } else {
      assert keys * (named + {v}) == keys * named;
    }
  }
}
