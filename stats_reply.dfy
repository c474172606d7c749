/**
 * The reply of ickstats: the flat name/value list that the LUA_ICKSTATS
 * script builds, and the Ruby post-processing that turns it into a hash and
 * turns every all-digit "_min"/"_max" string back into an integer.
 */
module StatsReply {

  import opened Wrappers

  /**
   * A value in the stats reply. Sizes come back from Redis as integers and
   * scores as strings (the script converts them so that Redis does not
   * truncate fractions). `Float` holds the text that Ruby's to_f would
   * parse; the floating-point value itself is not modelled.
   */
  datatype StatValue = Int(i: int) | Str(s: string) | Float(text: string)

  /** One name/value pair of the flat reply [k, v, k, v, ...]. */
  datatype Field = Field(name: string, value: StatValue)

  predicate IsDigit(c: char) { '0' <= c <= '9' }

  function DigitChar(d: nat): (c: char)
    requires d < 10
    ensures IsDigit(c)
  {
    (48 + d) as char
  }

  function DigitValue(c: char): nat
    requires IsDigit(c)
  {
    c as int - 48
  }

  /** Decimal digits of n, most significant first, no leading zeros. */
  function Digits(n: nat): string
    decreases n
  {
    if n < 10 then [DigitChar(n)] else Digits(n / 10) + [DigitChar(n % 10)]
  }

  /** How Lua's tostring prints an integral score: optional '-' then digits. */
  function Decimal(n: int): string {
    if n < 0 then "-" + Digits(-n) else Digits(n)
  }

  /** Ruby's /^\d+$/ on a one-line string: non-empty and only ASCII digits. */
  predicate AllDigits(s: string) {
    |s| > 0 && forall i :: 0 <= i < |s| ==> IsDigit(s[i])
  }

  /** Ruby's String#to_i on a string of digits. */
  function ParseDigits(s: string): nat
    requires forall i :: 0 <= i < |s| ==> IsDigit(s[i])
  {
    if s == [] then 0 else ParseDigits(s[..|s| - 1]) * 10 + DigitValue(s[|s| - 1])
  }

  /** Printing a natural number and reading it back gives the number. */
  lemma {:induction false} DigitsRoundTrip(n: nat)
    ensures AllDigits(Digits(n))
    ensures ParseDigits(Digits(n)) == n
    decreases n
  {
    if n >= 10 {
      DigitsRoundTrip(n / 10);
      var s := Digits(n);
      assert s[..|s| - 1] == Digits(n / 10);
    }
  }

  /** The conversion the post-processor applies to one "_min"/"_max" string. */
  function Converted(s: string): StatValue {
    if AllDigits(s) then Int(ParseDigits(s)) else Float(s)
  }

  /**
   * A score printed by the script comes back as the same integer when it is
   * not negative; a negative one fails the digits-only test and stays text
   * for the float conversion.
   */
  lemma ReportedScore(n: int)
    ensures Converted(Decimal(n)) == if n >= 0 then Int(n) else Float(Decimal(n))
  {
    if n >= 0 {
      DigitsRoundTrip(n);
    } else {
      assert Decimal(n)[0] == '-';
    }
  }

  /** The names whose values the post-processor converts: /_min$/ or /_max$/. */
  predicate IsExtremeName(k: string) {
    |k| >= 4 && (k[|k| - 4..] == "_min" || k[|k| - 4..] == "_max")
  }

  /** The value Ruby's Hash[*reply] keeps for a name: that of its last occurrence. */
  function Lookup(fields: seq<Field>, name: string): (r: Option<StatValue>)
    ensures r.Some? ==> Field(name, r.value) in fields
  {
    if fields == [] then None
    else if fields[|fields| - 1].name == name then Some(fields[|fields| - 1].value)
    else Lookup(fields[..|fields| - 1], name)
  }

  /** Lookup finds a name exactly when it occurs, and then its last occurrence. */
  lemma {:induction false} LookupFindsLast(fields: seq<Field>, name: string)
    ensures Lookup(fields, name).None? <==> forall i :: 0 <= i < |fields| ==> fields[i].name != name
    ensures Lookup(fields, name).Some? ==>
              exists i :: 0 <= i < |fields| && fields[i] == Field(name, Lookup(fields, name).value) &&
                forall j :: i < j < |fields| ==> fields[j].name != name
  {
    if fields != [] && fields[|fields| - 1].name != name {
      var init := fields[..|fields| - 1];
      LookupFindsLast(init, name);
      assert forall i :: 0 <= i < |init| ==> init[i] == fields[i];
      if Lookup(init, name).Some? {
        var i :| 0 <= i < |init| && init[i] == Field(name, Lookup(init, name).value) &&
          forall j :: i < j < |init| ==> init[j].name != name;
        assert fields[i] == init[i];
      }
    }
  }

  /** Appending a pair makes it the one found for its name and hides nothing else. */
  lemma LookupAppend(fields: seq<Field>, f: Field, name: string)
    ensures Lookup(fields + [f], name) == if f.name == name then Some(f.value) else Lookup(fields, name)
  {
    assert (fields + [f])[..|fields|] == fields;
  }

  /** A name found in a later part of the reply hides its occurrences before. */
  lemma {:induction false} LookupConcat(front: seq<Field>, back: seq<Field>, name: string)
    ensures Lookup(front + back, name) ==
            if Lookup(back, name).Some? then Lookup(back, name) else Lookup(front, name)
    decreases |back|
  {
    if back == [] {
      assert front + back == front;
    } else {
      var init := back[..|back| - 1];
      LookupConcat(front, init, name);
      assert (front + back)[..|front + back| - 1] == front + init;
    }
  }

  /** Every "_min"/"_max" value of the reply is a string, as the script emits them. */
  predicate ExtremesAreText(fields: seq<Field>) {
    forall i :: 0 <= i < |fields| && IsExtremeName(fields[i].name) ==> fields[i].value.Str?
  }

  lemma TextConcat(front: seq<Field>, back: seq<Field>)
    requires ExtremesAreText(front)
    requires forall i :: 0 <= i < |back| ==> back[i].value.Str?
    ensures ExtremesAreText(front + back)
  {
    forall i | 0 <= i < |front + back| && IsExtremeName((front + back)[i].name)
      ensures (front + back)[i].value.Str?
    {
      if i < |front| {
        assert (front + back)[i] == front[i];
      } else {
        assert (front + back)[i] == back[i - |front|];
      }
    }
  }

  /**
   * _postprocess_ickstats_results: nil stays nil; otherwise the flat reply
   * becomes a hash, and each "_min"/"_max" entry is rewritten in place by
   * the digits-only test.
   */
  method Postprocess(raw: Option<seq<Field>>) returns (r: Option<map<string, StatValue>>)
    requires raw.Some? ==> ExtremesAreText(raw.value)
    ensures r.None? <==> raw.None?
    ensures r.Some? ==> forall k :: k in r.value <==> Lookup(raw.value, k).Some?
    ensures r.Some? ==> forall k :: k in r.value && !IsExtremeName(k) ==>
              r.value[k] == Lookup(raw.value, k).value
    ensures r.Some? ==> forall k :: k in r.value && IsExtremeName(k) ==>
              Lookup(raw.value, k).value.Str? &&
              r.value[k] == Converted(Lookup(raw.value, k).value.s)
  {
    if raw.None? {
      return None;
    }
    var fields := raw.value;
    var stats: map<string, StatValue> := map[];
    var i := 0;
    while i < |fields|
      invariant 0 <= i <= |fields|
      invariant forall k :: k in stats <==> Lookup(fields[..i], k).Some?
      invariant forall k :: k in stats ==> stats[k] == Lookup(fields[..i], k).value
    {
      assert fields[..i + 1][..i] == fields[..i];
      stats := stats[fields[i].name := fields[i].value];
      i := i + 1;
    }
    assert fields[..i] == fields;
    forall k | k in stats && IsExtremeName(k)
      ensures stats[k].Str?
    {
      assert Field(k, stats[k]) in fields;
    }
    ghost var hashed := stats;
    var todo := set k | k in stats && IsExtremeName(k);
    while todo != {}
      invariant todo <= hashed.Keys && stats.Keys == hashed.Keys
      invariant forall k :: k in todo ==> IsExtremeName(k)
      invariant forall k :: k in stats ==>
                  stats[k] == if IsExtremeName(k) && k !in todo then Converted(hashed[k].s) else hashed[k]
      decreases |todo|
    {
      var k :| k in todo;
      stats := stats[k := Converted(stats[k].s)];
      todo := todo - {k};
    }
    r := Some(stats);
  }
}
