/**
 * The names of the three Redis keys that make up one Ick, and the hash-tag
 * rule of the Redis Cluster Specification ("Keys hash tags") that decides
 * which part of a key is hashed to choose its slot.
 */
module KeyScheme {

  import opened Wrappers

  /** The producer set's key: k + "/ick/{" + k + "}/pset". */
  function PsetKey(k: string): string {
    k + "/ick/{" + k + "}/pset"
  }

  /** The consumer set's key: k + "/ick/{" + k + "}/cset". */
  function CsetKey(k: string): string {
    k + "/ick/{" + k + "}/cset"
  }

  /** Index of the first occurrence of c in s, if any. */
  function Find(s: string, c: char): (r: Option<nat>)
    ensures r.None? <==> c !in s
    ensures r.Some? ==> r.value < |s| && s[r.value] == c && c !in s[..r.value]
  {
    if |s| == 0 then None
    else if s[0] == c then Some(0)
    else
      match Find(s[1..], c)
      case None => None
      case Some(i) => Some(i + 1)
  }

  /**
   * The hash tag of a key: the text between the first '{' and the first '}'
   * after it, when there is such a '}' and the text between is not empty.
   */
  function HashTag(key: string): Option<string> {
    match Find(key, '{')
    case None => None
    case Some(open) => TagUntilClose(key[open + 1..])
  }

  /** The text before the first '}' of s, when there is one and it is not empty. */
  function TagUntilClose(s: string): Option<string> {
    match Find(s, '}')
    case None => None
    case Some(len) => if len == 0 then None else Some(s[..len])
  }

  /** The part of the key that the cluster hashes to pick its slot. */
  function HashedPart(key: string): string {
    match HashTag(key)
    case Some(tag) => tag
    case None => key
  }

  /** A character not in a prefix does not change where it is first found after it. */
  lemma {:induction false} FindAfter(a: string, b: string, c: char)
    requires c !in a
    ensures Find(a + b, c) == match Find(b, c) case None => None case Some(i) => Some(|a| + i)
    decreases |a|
  {
    if |a| > 0 {
      assert (a + b)[1..] == a[1..] + b;
      FindAfter(a[1..], b, c);
    } else {
      assert a + b == b;
    }
  }

  /** The manifest key and the two derived keys are three different keys. */
  lemma DerivedKeysDistinct(k: string)
    ensures PsetKey(k) != k && CsetKey(k) != k && PsetKey(k) != CsetKey(k)
  {
    var p, c := PsetKey(k), CsetKey(k);
    assert |p| == |c| == 2 * |k| + 12;
    assert p[|p| - 4] == 'p' && c[|c| - 4] == 'c';
  }

  /** A character first found right after a prefix that lacks it. */
  lemma FirstAfter(a: string, b: string, c: char)
    requires c !in a && |b| > 0 && b[0] == c
    ensures Find(a + b, c) == Some(|a|)
  {
    FindAfter(a, b, c);
  }

  /** The text before the first '}' of tag + "}" + rest is tag, when tag has no '}'. */
  lemma {:induction false} CloseAfter(tag: string, rest: string)
    requires '}' !in tag && |tag| > 0
    ensures TagUntilClose(tag + "}" + rest) == Some(tag)
  {
    var s := tag + ("}" + rest);
    assert tag + "}" + rest == s;
    FirstAfter(tag, "}" + rest, '}');
    assert s[..|tag|] == tag;
  }

  /** A key head + "{" + tag + "}" + rest, with no '{' in head, has that tag. */
  lemma {:induction false} TagBetween(head: string, tag: string, rest: string)
    requires '{' !in head && '}' !in tag && |tag| > 0
    ensures HashTag(head + "{" + tag + "}" + rest) == Some(tag)
  {
    var inner := tag + "}" + rest;
    var key := head + ("{" + inner);
    assert head + "{" + tag + "}" + rest == key;
    FirstAfter(head, "{" + inner, '{');
    assert key[|head| + 1..] == inner;
    CloseAfter(tag, rest);
  }

  /** The hash tag of a key derived as k + "/ick/{" + k + "}/" + suffix. */
  lemma DerivedTag(k: string, suffix: string)
    requires |k| > 0 && '{' !in k && '}' !in k
    ensures HashTag(k + "/ick/{" + k + "}/" + suffix) == Some(k)
  {
    var head := k + "/ick/";
    assert '{' !in head by {
      forall i | 0 <= i < |head| ensures head[i] != '{' {
        if i >= |k| { assert head[i] == "/ick/"[i - |k|]; } else { assert head[i] == k[i]; }
      }
    }
    assert "/ick/{" == "/ick/" + "{";
    assert "}/" == "}" + "/";
    assert k + "/ick/{" + k + "}/" + suffix == head + "{" + k + "}" + ("/" + suffix);
    TagBetween(head, k, "/" + suffix);
  }

  /**
   * For a non-empty name free of braces, the name itself has no hash tag,
   * the tag of both derived keys is exactly the name, so all three keys
   * hash the same text and land in the same slot.
   */
  lemma Colocated(k: string)
    requires |k| > 0 && '{' !in k && '}' !in k
    ensures HashTag(k) == None
    ensures HashTag(PsetKey(k)) == Some(k) && HashTag(CsetKey(k)) == Some(k)
    ensures HashedPart(k) == HashedPart(PsetKey(k)) == HashedPart(CsetKey(k)) == k
  {
    assert PsetKey(k) == k + "/ick/{" + k + "}/" + "pset";
    assert CsetKey(k) == k + "/ick/{" + k + "}/" + "cset";
    DerivedTag(k, "pset");
    DerivedTag(k, "cset");
  }
}
